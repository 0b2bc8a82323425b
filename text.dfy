/** Python's `str.split()` (no separator argument) and `str.join`, on strings as sequences of characters. */
module Text {

  /** The characters Python's `str.isspace` accepts, which are those `str.split()` splits on. */
  predicate IsSpace(c: char) {
    ('\t' <= c <= '\r') || ('\U{1c}' <= c <= '\U{1f}') || c == ' '
    || c == '\U{85}' || c == '\U{a0}' || c == '\U{1680}'
    || ('\U{2000}' <= c <= '\U{200a}') || c == '\U{2028}' || c == '\U{2029}'
    || c == '\U{202f}' || c == '\U{205f}' || c == '\U{3000}'
  }

  /** A word as `str.split()` returns it: non-empty and free of whitespace. */
  predicate IsWord(w: string) {
    w != [] && forall i :: 0 <= i < |w| ==> !IsSpace(w[i])
  }

  /** Length of the run of non-whitespace characters at the start of `s`. */
  function WordLen(s: string): (n: nat)
    ensures n <= |s|
    ensures forall i :: 0 <= i < n ==> !IsSpace(s[i])
    ensures n < |s| ==> IsSpace(s[n])
    decreases |s|
  {
    if s == [] || IsSpace(s[0]) then 0 else 1 + WordLen(s[1..])
  }

  /** `s.split()`: the maximal runs of non-whitespace characters, leading and trailing whitespace dropped. */
  function Split(s: string): (ws: seq<string>)
    ensures forall i :: 0 <= i < |ws| ==> IsWord(ws[i])
    decreases |s|
  {
    if s == [] then []
    else if IsSpace(s[0]) then Split(s[1..])
    else
      var n := WordLen(s);
      [s[..n]] + Split(s[n..])
  }

  /**
   * `sep.join(ws)`: nothing for no words; otherwise the first word comes first and
   * one separator is spent per gap.
   */
  function Join(sep: string, ws: seq<string>): (r: string)
    ensures ws == [] ==> r == ""
    ensures ws != [] ==> |r| == TotalLen(ws) + (|ws| - 1) * |sep|
    ensures ws != [] ==> |ws[0]| <= |r| && r[..|ws[0]|] == ws[0]
    decreases |ws|
  {
    if ws == [] then ""
    else if |ws| == 1 then ws[0]
    else ws[0] + sep + Join(sep, ws[1..])
  }

  /** Sum of the lengths of the words. */
  function TotalLen(ws: seq<string>): nat
    decreases |ws|
  {
    if ws == [] then 0 else |ws[0]| + TotalLen(ws[1..])
  }

  lemma {:induction false} TotalLenAppend(a: seq<string>, b: seq<string>)
    ensures TotalLen(a + b) == TotalLen(a) + TotalLen(b)
    decreases |a|
  {
    if a == [] {
      assert a + b == b;
    } else {
      assert (a + b)[0] == a[0];
      assert (a + b)[1..] == a[1..] + b;
      TotalLenAppend(a[1..], b);
    }
  }

  /** Joining with a single space costs one character per gap: `Join`'s length with a one-character separator. */
  lemma JoinSpaceLength(ws: seq<string>)
    requires ws != []
    ensures |Join(" ", ws)| == TotalLen(ws) + |ws| - 1
  {
  }

  /** Consecutive words of `s` are separated by at least one whitespace character. */
  lemma {:induction false} SplitLength(s: string)
    ensures Split(s) != [] ==> TotalLen(Split(s)) + |Split(s)| - 1 <= |s|
    ensures Split(s) != [] && s != [] && IsSpace(s[0]) ==> TotalLen(Split(s)) + |Split(s)| <= |s|
    decreases |s|
  {
    if s != [] {
      if IsSpace(s[0]) {
        SplitLength(s[1..]);
      } else {
        var n := WordLen(s);
        SplitLength(s[n..]);
        assert Split(s)[1..] == Split(s[n..]);
      }
    }
  }

  lemma {:induction false} WordLenOfWord(w: string, t: string)
    requires forall i :: 0 <= i < |w| ==> !IsSpace(w[i])
    requires t == [] || IsSpace(t[0])
    ensures WordLen(w + t) == |w|
    decreases |w|
  {
    if w != [] {
      assert (w + t)[0] == w[0];
      assert (w + t)[1..] == w[1..] + t;
      WordLenOfWord(w[1..], t);
    } else {
      assert w + t == t;
    }
  }

  /** Splitting a space-joined list of words gives the words back. */
  lemma {:induction false} SplitJoin(ws: seq<string>)
    requires forall i :: 0 <= i < |ws| ==> IsWord(ws[i])
    ensures Split(Join(" ", ws)) == ws
    decreases |ws|
  {
    if |ws| == 1 {
      SplitWord(ws[0], "");
      assert ws[0] + "" == ws[0];
    } else if |ws| > 1 {
      var w, rest := ws[0], Join(" ", ws[1..]);
      JoinCons(ws);
      SplitWord(w, " " + rest);
      SplitSpace(" " + rest);
      assert (" " + rest)[1..] == rest;
      SplitJoin(ws[1..]);
      assert ws == [w] + ws[1..];
    }
  }

  lemma JoinCons(ws: seq<string>)
    requires |ws| > 1
    ensures Join(" ", ws) == ws[0] + (" " + Join(" ", ws[1..]))
  {
    var rest := Join(" ", ws[1..]);
    assert Join(" ", ws) == ws[0] + " " + rest;
    assert ws[0] + " " + rest == ws[0] + (" " + rest);
  }

  lemma SplitSpace(t: string)
    requires t != [] && IsSpace(t[0])
    ensures Split(t) == Split(t[1..])
  {
  }

  /** Any run of leading spaces is skipped. */
  lemma {:induction false} SplitBlanks(n: nat, t: string)
    ensures Split(seq(n, _ => ' ') + t) == Split(t)
    decreases n
  {
    if n > 0 {
      var b := seq(n, _ => ' ') + t;
      assert b[0] == ' ';
      assert b[1..] == seq(n - 1, _ => ' ') + t;
      SplitSpace(b);
      SplitBlanks(n - 1, t);
    } else {
      assert seq(n, _ => ' ') + t == t;
    }
  }

  /** A word followed by whitespace or nothing splits off as the first word. */
  lemma SplitWord(w: string, t: string)
    requires IsWord(w)
    requires t == [] || IsSpace(t[0])
    ensures Split(w + t) == [w] + Split(t)
  {
    WordLenOfWord(w, t);
    var s := w + t;
    assert s[0] == w[0];
    assert s[..|w|] == w;
    assert s[|w|..] == t;
  }
}
