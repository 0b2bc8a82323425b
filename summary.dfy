/**
 * The text side of summarising: the prompt built from the thread, and the limit
 * that cuts a generated summary back to one tweet on word boundaries.
 */
module Summary {
  import opened Wrappers
  import opened Text

  // ---------------------------------------------------------------- get_gpt_summary

  const TweetOpen: string := "<tweet>"
  const TweetClose: string := "</tweet>"
  const Instruction: string := "\nSummarize the above into a single 280 character Tweet:\n<tweet>"

  /** The prompt sent to the completion service: the thread's tweets in tags, then the instruction. */
  function Prompt(thread: seq<string>): (r: string)
    ensures |r| == |TweetOpen| + |TweetClose| + |Instruction| + TotalLen(thread)
                   + (if thread == [] then 0 else (|thread| - 1) * |TweetClose + TweetOpen|)
    ensures r[..|TweetOpen|] == TweetOpen
    ensures r[|r| - |Instruction|..] == Instruction
  {
    TweetOpen + Join(TweetClose + TweetOpen, thread) + TweetClose + Instruction
  }

  /** Each tweet of the thread in its own pair of tags, one after the other. */
  function Tagged(thread: seq<string>): string
    decreases |thread|
  {
    if thread == [] then "" else TweetOpen + thread[0] + TweetClose + Tagged(thread[1..])
  }

  /** An empty thread still gives one empty pair of tags before the instruction. */
  lemma PromptOfEmptyThread()
    ensures Prompt([]) == "<tweet></tweet>" + Instruction
  {
  }

  /** For a non-empty thread the prompt is every tweet wrapped in tags, then the instruction. */
  lemma {:induction false} PromptTagsEachTweet(thread: seq<string>)
    requires thread != []
    ensures Prompt(thread) == Tagged(thread) + Instruction
    decreases |thread|
  {
    TaggedJoin(thread);
  }

  lemma {:induction false} TaggedJoin(thread: seq<string>)
    requires thread != []
    ensures TweetOpen + Join(TweetClose + TweetOpen, thread) + TweetClose == Tagged(thread)
    decreases |thread|
  {
    if |thread| == 1 {
      assert Tagged(thread[1..]) == "";
    } else {
      var sep := TweetClose + TweetOpen;
      var rest := Join(sep, thread[1..]);
      TaggedJoin(thread[1..]);
      calc {
        TweetOpen + Join(sep, thread) + TweetClose;
        TweetOpen + (thread[0] + sep + rest) + TweetClose;
        (TweetOpen + thread[0] + TweetClose) + (TweetOpen + rest + TweetClose);
        (TweetOpen + thread[0] + TweetClose) + Tagged(thread[1..]);
      }
    }
  }

  // ---------------------------------------------------------------- limit_summary

  const MaxTweetLength: nat := 280

  /** `s[:280]`. */
  function Clamp(s: string): (r: string)
    ensures |r| <= MaxTweetLength
    ensures |s| <= MaxTweetLength ==> r == s
    ensures |s| > MaxTweetLength ==> r == s[..MaxTweetLength]
  {
    if |s| <= MaxTweetLength then s else s[..MaxTweetLength]
  }

  /** What removing the words from index `i` on takes off: each word's length plus one separator. */
  function RemovedFrom(words: seq<string>, i: nat): nat
    decreases |words| - i
  {
    if i >= |words| then 0 else |words[i]| + 1 + RemovedFrom(words, i + 1)
  }

  /** Keeping `words[..i]` brings the estimated length within the limit. */
  predicate Fits(words: seq<string>, curLen: nat, i: nat) {
    curLen - RemovedFrom(words, i) <= MaxTweetLength
  }

  /** The largest `i` in `1..hi` with `Fits(words, curLen, i)`, if any. */
  function LastFit(words: seq<string>, curLen: nat, hi: int): (r: Option<nat>)
    ensures r.Some? ==> 1 <= r.value <= hi && Fits(words, curLen, r.value)
    ensures r.Some? ==> forall j :: r.value < j <= hi ==> !Fits(words, curLen, j)
    ensures r.None? ==> forall j :: 1 <= j <= hi ==> !Fits(words, curLen, j)
    decreases hi
  {
    if hi < 1 then None
    else if Fits(words, curLen, hi) then Some(hi)
    else LastFit(words, curLen, hi - 1)
  }

  /**
   * What `limit_summary` returns: a summary within 280 characters as it is;
   * otherwise the longest word prefix whose estimated length fits, joined by
   * single spaces and cut to 280, or the summary unchanged when no prefix of at
   * least one word fits. (The `@GPTSummary` rewrite is discarded in the source,
   * so no rewrite happens here.)
   */
  function Limit(s: string): (r: string)
    ensures |s| <= MaxTweetLength ==> r == s
    ensures |r| <= MaxTweetLength || r == s
  {
    if |s| <= MaxTweetLength then s
    else
      var words := Split(s);
      match LastFit(words, |s|, |words| - 1)
      case Some(i) => Clamp(Join(" ", words[..i]))
      case None => s
  }

  /** `limit_summary`, with its downward loop over the words and its early `break`. */
  method LimitSummary(summary: string) returns (r: string)
    ensures r == Limit(summary)
  {
    r := summary;
    if |summary| > MaxTweetLength {
      var curLen := |summary|;
      var removed := 0;
      var words := Split(summary);
      var i := |words| - 1;
      while i > 0
        invariant -1 <= i < |words|
        invariant removed == RemovedFrom(words, i + 1)
        invariant LastFit(words, curLen, |words| - 1) == LastFit(words, curLen, i)
        invariant r == summary
      {
        removed := removed + |words[i]| + 1;
        if curLen - removed <= MaxTweetLength {
          r := Clamp(Join(" ", words[..i]));
          break;
        }
        i := i - 1;
      }
    }
  }

  /** What the kept prefix costs, in closed form. */
  lemma {:induction false} RemovedFromTotal(words: seq<string>, i: nat)
    requires i <= |words|
    ensures RemovedFrom(words, i) == TotalLen(words[i..]) + |words| - i
    decreases |words| - i
  {
    if i < |words| {
      RemovedFromTotal(words, i + 1);
      assert words[i..] == [words[i]] + words[i + 1..];
    } else {
      assert words[i..] == [];
    }
  }

  /** The estimate is never below the real length of the kept words joined by single spaces. */
  lemma KeptFits(s: string, i: nat)
    requires 1 <= i <= |Split(s)|
    ensures |Join(" ", Split(s)[..i])| <= |s| - RemovedFrom(Split(s), i)
  {
    var words := Split(s);
    SplitLength(s);
    RemovedFromTotal(words, i);
    assert words == words[..i] + words[i..];
    TotalLenAppend(words[..i], words[i..]);
    JoinSpaceLength(words[..i]);
  }

  /**
   * On the truncation path the result is the first `i >= 1` words joined by single
   * spaces, for the largest such `i` that fits; the final `[:280]` never cuts.
   */
  lemma LimitTruncation(s: string)
    requires |s| > MaxTweetLength
    requires LastFit(Split(s), |s|, |Split(s)| - 1).Some?
    ensures var words, i := Split(s), LastFit(Split(s), |s|, |Split(s)| - 1).value;
      && 1 <= i < |words|
      && Limit(s) == Join(" ", words[..i])
      && |Limit(s)| <= MaxTweetLength
      && forall j :: i < j < |words| ==> !Fits(words, |s|, j)
  {
    var words, i := Split(s), LastFit(Split(s), |s|, |Split(s)| - 1).value;
    KeptFits(s, i);
  }

  /** The result never ends in part of a word: it is the input, or its first words. */
  lemma LimitKeepsWholeWords(s: string)
    ensures Limit(s) == s
            || (0 < |Split(Limit(s))| < |Split(s)| && Split(Limit(s)) == Split(s)[..|Split(Limit(s))|])
  {
    if |s| > MaxTweetLength && LastFit(Split(s), |s|, |Split(s)| - 1).Some? {
      var words, i := Split(s), LastFit(Split(s), |s|, |Split(s)| - 1).value;
      LimitTruncation(s);
      SplitJoin(words[..i]);
    }
  }

  /**
   * No length guarantee when nothing fits: a summary none of whose prefixes of at
   * least one word has an estimate within 280 (one word, a first word over 280, or
   * enough extra whitespace) comes back unchanged however long it is.
   */
  lemma LimitNoFit(s: string)
    requires |s| > MaxTweetLength
    requires |Split(s)| <= 1 || !Fits(Split(s), |s|, 1)
    ensures Limit(s) == s
  {
    var words := Split(s);
    forall j | 1 <= j < |words|
      ensures !Fits(words, |s|, j)
    {
      RemovedFromMonotone(words, 1, j);
    }
  }

  /** A long summary whose first word alone is over 280 characters comes back unchanged. */
  lemma FirstWordTooLong(s: string)
    requires |s| > MaxTweetLength && Split(s) != [] && |Split(s)[0]| > MaxTweetLength
    ensures Limit(s) == s
  {
    var words := Split(s);
    KeptFits(s, 1);
    assert words[..1] == [words[0]];
    LimitNoFit(s);
  }

  /**
   * The estimate counts every character of the summary, extra whitespace included:
   * `"a"`, 300 spaces and `"b"` (302 characters) come back unchanged, although joining
   * the first word alone would take one character.
   */
  lemma WideGapKept()
    ensures var s := "a" + seq(300, _ => ' ') + "b";
      |s| == 302 && Split(s) == ["a", "b"] && Limit(s) == s
  {
    var gap := seq(300, _ => ' ');
    var s := "a" + gap + "b";
    assert s == "a" + (gap + "b");
    SplitWord("a", gap + "b");
    SplitBlanks(300, "b");
    assert "b" == "b" + [];
    SplitWord("b", []);
    assert Split([]) == [];
    var words := Split(s);
    assert words == ["a", "b"];
    assert RemovedFrom(words, 1) == 2 by {
      assert RemovedFrom(words, 2) == 0;
    }
    LimitNoFit(s);
  }

  /** Removing from an earlier index takes off at least as much. */
  lemma {:induction false} RemovedFromMonotone(words: seq<string>, i: nat, j: nat)
    requires i <= j
    ensures RemovedFrom(words, j) <= RemovedFrom(words, i)
    decreases j - i
  {
    if i < j {
      RemovedFromMonotone(words, i + 1, j);
    }
  }

  /** Limiting twice is limiting once. */
  lemma LimitIdempotent(s: string)
    ensures Limit(Limit(s)) == Limit(s)
  {
    if |s| > MaxTweetLength && LastFit(Split(s), |s|, |Split(s)| - 1).Some? {
      LimitTruncation(s);
    }
  }
}
