/**
 * Assembling the conversation text from records already fetched: the part of
 * `get_tweet_thread` after the two network calls.
 */
module Thread {
  import opened Wrappers
  import opened Seqs
  import opened Dicts
  import opened Utils

  /** A record whose text is kept: written by the thread author in the same conversation. */
  predicate ByThreadAuthor(t: Tweet, authorId: Id, convId: Id) {
    t.authorId == authorId && t.conversationId == convId
  }

  /** The `tweets` dictionary (id to text) after the loop has read `recs`. */
  function TextsAfter(recs: seq<Tweet>, convId: Id, authorId: Id, startText: string): (r: map<Id, string>)
    ensures convId in r
    decreases |recs|
  {
    if recs == [] then map[convId := startText]
    else
      var texts := TextsAfter(recs[..|recs| - 1], convId, authorId, startText);
      var t := recs[|recs| - 1];
      if ByThreadAuthor(t, authorId, convId) then texts[t.id := t.text] else texts
  }

  /** The `parents` dictionary (child id to parent id) after the loop has read `recs`. */
  function ParentsAfter(recs: seq<Tweet>): (d: Dict<Id, Id>)
    ensures d.Valid()
    decreases |recs|
  {
    if recs == [] then EmptyDict()
    else
      var d := ParentsAfter(recs[..|recs| - 1]);
      var t := recs[|recs| - 1];
      match GetParent(t)
      case Some(p) => d.Put(t.id, p)
      case None => d
  }

  /** `recs[i]` is a kept record and no later kept record has its id. */
  predicate LastTextFor(recs: seq<Tweet>, convId: Id, authorId: Id, i: int) {
    0 <= i < |recs| && ByThreadAuthor(recs[i], authorId, convId)
    && forall j :: i < j < |recs| && recs[j].id == recs[i].id ==> !ByThreadAuthor(recs[j], authorId, convId)
  }

  /** `recs[i]` has a parent and no later record with its id has one. */
  predicate LastParentFor(recs: seq<Tweet>, i: int) {
    0 <= i < |recs| && GetParent(recs[i]).Some?
    && forall j :: i < j < |recs| && recs[j].id == recs[i].id ==> GetParent(recs[j]).None?
  }

  /**
   * `tweets` holds the conversation id and the ids of records by the thread author
   * in the conversation; a later record overwrites an earlier one with the same id,
   * and the start text stays only when no kept record has the conversation's id.
   */
  lemma {:induction false} TextsAfterMeaning(recs: seq<Tweet>, convId: Id, authorId: Id, startText: string, x: Id)
    ensures var texts := TextsAfter(recs, convId, authorId, startText);
      && (x in texts <==> x == convId || exists i :: 0 <= i < |recs| && recs[i].id == x && ByThreadAuthor(recs[i], authorId, convId))
      && (forall i :: LastTextFor(recs, convId, authorId, i) && recs[i].id == x ==> texts[x] == recs[i].text)
      && (x == convId && (forall i :: 0 <= i < |recs| && recs[i].id == x ==> !ByThreadAuthor(recs[i], authorId, convId))
          ==> texts[x] == startText)
    decreases |recs|
  {
    if recs != [] {
      var init, t := recs[..|recs| - 1], recs[|recs| - 1];
      assert recs == init + [t];
      TextsAfterMeaning(init, convId, authorId, startText, x);
      forall i | LastTextFor(recs, convId, authorId, i) && recs[i].id == x && i < |init|
        ensures LastTextFor(init, convId, authorId, i)
      {
      }
    }
  }

  /**
   * `parents` has an entry for every record with a `replied_to` parent, whoever
   * wrote it, and the last such record for an id decides its parent.
   */
  lemma ParentsAfterMeaning(recs: seq<Tweet>, x: Id)
    ensures var d := ParentsAfter(recs);
      && (x in d.values <==> ParentRecorded(recs, x))
      && (forall i :: LastParentFor(recs, i) && recs[i].id == x ==> d.values[x] == GetParent(recs[i]).value)
  {
    ParentsAfterKeys(recs, x);
    ParentsAfterLast(recs, x);
  }

  /** One more record adds its parent, if it has one, under its id. */
  lemma ParentsAfterStep(recs: seq<Tweet>)
    requires recs != []
    ensures var init, t := recs[..|recs| - 1], recs[|recs| - 1];
      ParentsAfter(recs).values
      == if GetParent(t).Some? then ParentsAfter(init).values[t.id := GetParent(t).value] else ParentsAfter(init).values
  {
  }

  /** Some record with id `x` has a parent. */
  predicate ParentRecorded(recs: seq<Tweet>, x: Id) {
    exists i :: 0 <= i < |recs| && recs[i].id == x && GetParent(recs[i]).Some?
  }

  lemma ParentRecordedSnoc(recs: seq<Tweet>, x: Id)
    requires recs != []
    ensures var init, t := recs[..|recs| - 1], recs[|recs| - 1];
      ParentRecorded(recs, x) <==> ParentRecorded(init, x) || (t.id == x && GetParent(t).Some?)
  {
    var init := recs[..|recs| - 1];
    if ParentRecorded(init, x) {
      var i :| 0 <= i < |init| && init[i].id == x && GetParent(init[i]).Some?;
      assert recs[i] == init[i];
    }
    if ParentRecorded(recs, x) {
      var i :| 0 <= i < |recs| && recs[i].id == x && GetParent(recs[i]).Some?;
      if i < |init| { assert init[i] == recs[i]; }
    }
  }

  lemma {:induction false} ParentsAfterKeys(recs: seq<Tweet>, x: Id)
    ensures x in ParentsAfter(recs).values <==> ParentRecorded(recs, x)
    decreases |recs|
  {
    if recs != [] {
      ParentsAfterStep(recs);
      ParentsAfterKeys(recs[..|recs| - 1], x);
      ParentRecordedSnoc(recs, x);
    }
  }

  lemma {:induction false} ParentsAfterLast(recs: seq<Tweet>, x: Id)
    ensures forall i :: LastParentFor(recs, i) && recs[i].id == x ==>
      x in ParentsAfter(recs).values && ParentsAfter(recs).values[x] == GetParent(recs[i]).value
    decreases |recs|
  {
    if recs != [] {
      var init, t := recs[..|recs| - 1], recs[|recs| - 1];
      ParentsAfterStep(recs);
      ParentsAfterLast(init, x);
      var m, m' := ParentsAfter(init).values, ParentsAfter(recs).values;
      forall i | LastParentFor(recs, i) && recs[i].id == x
        ensures x in m' && m'[x] == GetParent(recs[i]).value
      {
        if i < |init| {
          assert init[i] == recs[i];
          assert GetParent(t).None? || t.id != x;
          assert LastParentFor(init, i);
          assert x in m && m[x] == GetParent(recs[i]).value;
        }
      }
    }
  }

  /** Every reply edge among the records lowers `rank`: the records' reply graph is acyclic. */
  ghost predicate EdgesRanked(recs: seq<Tweet>, rank: Id -> nat) {
    forall i :: 0 <= i < |recs| && GetParent(recs[i]).Some? ==> rank(recs[i].id) < rank(GetParent(recs[i]).value)
  }

  lemma {:induction false} ParentsAfterRanked(recs: seq<Tweet>, rank: Id -> nat)
    requires EdgesRanked(recs, rank)
    ensures ParentsRanked(ParentsAfter(recs), rank)
    decreases |recs|
  {
    if recs != [] {
      var init := recs[..|recs| - 1];
      assert EdgesRanked(init, rank) by {
        forall i | 0 <= i < |init| && GetParent(init[i]).Some?
          ensures rank(init[i].id) < rank(GetParent(init[i]).value)
        {
          assert init[i] == recs[i];
        }
      }
      ParentsAfterRanked(init, rank);
    }
  }

  /** `ids` with every occurrence of `x` dropped, order kept. */
  function Without(ids: seq<Id>, x: Id): (r: seq<Id>)
    ensures forall y :: y in r <==> y in ids && y != x
    ensures forall y :: multiset(r)[y] == if y == x then 0 else multiset(ids)[y]
    ensures |r| <= |ids|
    decreases |ids|
  {
    if ids == [] then []
    else
      assert ids == [ids[0]] + ids[1..];
      if ids[0] == x then Without(ids[1..], x)
      else [ids[0]] + Without(ids[1..], x)
  }

  /** Dropping distributes over concatenation: the remaining ids keep their order. */
  lemma {:induction false} WithoutAppend(a: seq<Id>, b: seq<Id>, x: Id)
    ensures Without(a + b, x) == Without(a, x) + Without(b, x)
    decreases |a|
  {
    if a == [] {
      assert a + b == b;
    } else {
      assert (a + b)[0] == a[0] && (a + b)[1..] == a[1..] + b;
      WithoutAppend(a[1..], b, x);
    }
  }

  /** Every remaining id after `x` is dropped has a text. */
  predicate AllFound(ids: seq<Id>, x: Id, texts: map<Id, string>) {
    forall y :: y in ids && y != x ==> y in texts
  }

  /** `ids[i]` is the first id, other than the tagging id, that has no text. */
  predicate FirstMissing(ids: seq<Id>, taggingId: Id, texts: map<Id, string>, i: int) {
    0 <= i < |ids| && ids[i] != taggingId && ids[i] !in texts
    && forall j :: 0 <= j < i ==> ids[j] == taggingId || ids[j] in texts
  }

  /**
   * `[tweets[x] for x in ids if x != tagging_id]`: the texts of the remaining ids in
   * order, or the first remaining id with no text, where the lookup raises `KeyError`.
   */
  function LookupTexts(ids: seq<Id>, taggingId: Id, texts: map<Id, string>): (r: Result<seq<string>, Id>)
    ensures r.Ok? <==> AllFound(ids, taggingId, texts)
    ensures r.Ok? ==> |r.value| == |Without(ids, taggingId)|
    ensures r.Ok? ==> forall i :: 0 <= i < |r.value| ==>
      Without(ids, taggingId)[i] in texts && r.value[i] == texts[Without(ids, taggingId)[i]]
    ensures r.Err? ==> exists i :: FirstMissing(ids, taggingId, texts, i) && ids[i] == r.error
    decreases |ids|
  {
    if ids == [] then Ok([])
    else
      var rest := LookupTexts(ids[1..], taggingId, texts);
      assert forall y :: y in ids <==> y == ids[0] || y in ids[1..] by {
        assert ids == [ids[0]] + ids[1..];
      }
      assert ids[0] !in texts && ids[0] != taggingId ==> FirstMissing(ids, taggingId, texts, 0);
      assert rest.Err? && (ids[0] == taggingId || ids[0] in texts) ==>
        exists i :: FirstMissing(ids, taggingId, texts, i) && ids[i] == rest.error
      by {
        if rest.Err? && (ids[0] == taggingId || ids[0] in texts) {
          var i :| FirstMissing(ids[1..], taggingId, texts, i) && ids[1..][i] == rest.error;
          assert ids[i + 1] == rest.error;
          forall j | 0 <= j < i + 1 ensures ids[j] == taggingId || ids[j] in texts {
            if j > 0 { assert ids[j] == ids[1..][j - 1]; }
          }
          assert FirstMissing(ids, taggingId, texts, i + 1);
        }
      }
      if ids[0] == taggingId then rest
      else if ids[0] !in texts then Err(ids[0])
      else match rest
        case Ok(more) => Ok([texts[ids[0]]] + more)
        case Err(e) => Err(e)
  }

  /**
   * The pure part of `get_tweet_thread`: `included` and `found` are the response's
   * `includes["tweets"]` and `data`, already fetched for conversation `convId` by
   * author `authorId`, whose start tweet has text `startText`.
   */
  method GetTweetThread(
    convId: Id, taggingId: Id, authorId: Id, startText: string,
    included: seq<Tweet>, found: seq<Tweet>, ghost rank: Id -> nat)
    returns (conversation: Result<seq<string>, Id>)
    requires ParentsRanked(ParentsAfter(included + found), rank)
    ensures RankedBy(TreeOf(ParentsAfter(included + found)), rank)
    ensures conversation == LookupTexts(
              Enumerate(TreeOf(ParentsAfter(included + found)), convId, rank),
              taggingId,
              TextsAfter(included + found, convId, authorId, startText))
  {
    var records := included + found;
    var tweets: map<Id, string> := map[convId := startText];
    var parents: Dict<Id, Id> := EmptyDict();
    for i := 0 to |records|
      invariant tweets == TextsAfter(records[..i], convId, authorId, startText)
      invariant parents == ParentsAfter(records[..i])
    {
      var tweet := records[i];
      assert records[..i + 1] == records[..i] + [tweet];
      if tweet.authorId == authorId && tweet.conversationId == convId {
        tweets := tweets[tweet.id := tweet.text];
      }
      var p := GetParent(tweet);
      if p.Some? {
        parents := parents.Put(tweet.id, p.value);
      }
    }
    assert records[..|records|] == records;
    TreeOfRanked(parents, rank);
    var tree := BuildTweetTree(parents);
    var order := Enumerate(tree, convId, rank);
    conversation := LookupTexts(order, taggingId, tweets);
  }

  /**
   * The tagging tweet is dropped wherever it occurs in the enumeration, the root
   * included: the thread is the same whether or not its text was recorded.
   */
  lemma {:induction false} TaggingTextUnused(ids: seq<Id>, taggingId: Id, texts: map<Id, string>)
    ensures LookupTexts(ids, taggingId, texts) == LookupTexts(ids, taggingId, texts - {taggingId})
    decreases |ids|
  {
    if ids != [] {
      TaggingTextUnused(ids[1..], taggingId, texts);
    }
  }
}
