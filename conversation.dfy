/**
 * Which conversation a tagging tweet asks about: the branch of
 * `get_conversation_id` that runs once the lookup response is in hand.
 */
module Conversation {
  import opened Wrappers
  import opened Utils

  const Quoted: string := "quoted"

  /** One entry of the response's `errors`. */
  datatype ApiError = ApiError(title: string, detail: string)

  /** The lookup response: the tagging tweet, the `includes["tweets"]` expansion, and any errors. */
  datatype TweetResponse = TweetResponse(data: Tweet, includedTweets: seq<Tweet>, errors: seq<ApiError>)

  /** `ts[i]` is the first tweet of `ts` with id `id`. */
  predicate FirstWithId(ts: seq<Tweet>, id: Id, i: int) {
    0 <= i < |ts| && ts[i].id == id && forall j :: 0 <= j < i ==> ts[j].id != id
  }

  /** The first tweet of `ts` with id `id`, as the inner loop over the included tweets finds it. */
  function FindTweet(ts: seq<Tweet>, id: Id): (r: Option<Tweet>)
    ensures r.None? <==> forall i :: 0 <= i < |ts| ==> ts[i].id != id
    ensures r.Some? ==> exists i :: FirstWithId(ts, id, i) && ts[i] == r.value
    decreases |ts|
  {
    if ts == [] then None
    else if ts[0].id == id then
      assert FirstWithId(ts, id, 0);
      Some(ts[0])
    else
      var r := FindTweet(ts[1..], id);
      assert r.Some? ==> exists i :: FirstWithId(ts, id, i) && ts[i] == r.value by {
        if r.Some? {
          var i :| FirstWithId(ts[1..], id, i) && ts[1..][i] == r.value;
          assert FirstWithId(ts, id, i + 1);
        }
      }
      r
  }

  /** A `quoted` reference whose tweet is among the included ones. */
  predicate Resolvable(ref: Reference, includes: seq<Tweet>) {
    ref.kind == Quoted && exists i :: 0 <= i < |includes| && includes[i].id == ref.id
  }

  /** `refs[i]` is the first resolvable reference. */
  predicate FirstResolvable(refs: seq<Reference>, includes: seq<Tweet>, i: int) {
    0 <= i < |refs| && Resolvable(refs[i], includes)
    && forall j :: 0 <= j < i ==> !Resolvable(refs[j], includes)
  }

  /** `c` is the conversation of the first included tweet matching the first resolvable reference `refs[i]`. */
  predicate ResolvedBy(refs: seq<Reference>, includes: seq<Tweet>, i: int, c: Id) {
    FirstResolvable(refs, includes, i)
    && FindTweet(includes, refs[i].id).Some?
    && c == FindTweet(includes, refs[i].id).value.conversationId
  }

  /**
   * The nested loops over the references and the included tweets: the conversation
   * of the first included tweet matching the first resolvable reference, if any.
   */
  function QuotedConversation(refs: seq<Reference>, includes: seq<Tweet>): (r: Option<Id>)
    ensures r.None? <==> forall i :: 0 <= i < |refs| ==> !Resolvable(refs[i], includes)
    ensures r.Some? ==> exists i :: ResolvedBy(refs, includes, i, r.value)
    decreases |refs|
  {
    if refs == [] then None
    else if refs[0].kind == Quoted && FindTweet(includes, refs[0].id).Some? then
      assert ResolvedBy(refs, includes, 0, FindTweet(includes, refs[0].id).value.conversationId);
      Some(FindTweet(includes, refs[0].id).value.conversationId)
    else
      var r := QuotedConversation(refs[1..], includes);
      ResolvedPastHead(refs, includes, r);
      r
  }

  /** Past a first reference that does not resolve, a resolution of the rest is one of the whole. */
  lemma ResolvedPastHead(refs: seq<Reference>, includes: seq<Tweet>, r: Option<Id>)
    requires refs != [] && !Resolvable(refs[0], includes)
    requires r.Some? ==> exists i :: ResolvedBy(refs[1..], includes, i, r.value)
    ensures r.Some? ==> exists i :: ResolvedBy(refs, includes, i, r.value)
  {
    if r.Some? {
      var i :| ResolvedBy(refs[1..], includes, i, r.value);
      assert ResolvedBy(refs, includes, i + 1, r.value);
    }
  }

  /** The tagging tweet has no `quoted` reference whose tweet was included. */
  predicate NoQuoteResolves(resp: TweetResponse) {
    resp.data.referencedTweets.Some? ==>
      forall i :: 0 <= i < |resp.data.referencedTweets.value| ==> !Resolvable(resp.data.referencedTweets.value[i], resp.includedTweets)
  }

  /**
   * `get_conversation_id` after the lookup: nothing when the response carries errors;
   * otherwise the quoted tweet's conversation for a quote tweet whose quoted tweet was
   * included, and the tagging tweet's own conversation in every other case.
   */
  function ConversationId(resp: TweetResponse): (r: Option<Id>)
    ensures r.None? <==> resp.errors != []
    ensures r.Some? && NoQuoteResolves(resp) ==> r.value == resp.data.conversationId
    ensures r.Some? && !NoQuoteResolves(resp) ==> exists i :: ResolvedBy(resp.data.referencedTweets.value, resp.includedTweets, i, r.value)
  {
    if resp.errors != [] then None
    else match resp.data.referencedTweets
      case None => Some(resp.data.conversationId)
      case Some(refs) =>
        match QuotedConversation(refs, resp.includedTweets)
        case Some(c) => Some(c)
        case None => Some(resp.data.conversationId)
  }

  /** Only `quoted` references count: a reply, however it is referenced, keeps its own conversation. */
  lemma OnlyQuotesRedirect(resp: TweetResponse)
    requires resp.errors == []
    requires resp.data.referencedTweets.Some? ==>
      forall i :: 0 <= i < |resp.data.referencedTweets.value| ==> resp.data.referencedTweets.value[i].kind != Quoted
    ensures ConversationId(resp) == Some(resp.data.conversationId)
  {
  }

  /**
   * A tweet none of whose `quoted` references has its tweet included falls back to its
   * own conversation, whatever else it references or the includes hold: the
   * fallback clause of `ConversationId` restated for error-free responses.
   */
  lemma QuoteNotIncluded(resp: TweetResponse)
    requires resp.errors == []
    requires NoQuoteResolves(resp)
    ensures ConversationId(resp) == Some(resp.data.conversationId)
  {
  }

  /**
   * A quote tweet whose quoted tweet is the first included tweet with that id is
   * resolved to that tweet's conversation when it is the first resolvable reference.
   */
  lemma QuoteResolved(resp: TweetResponse, i: nat, j: nat)
    requires resp.errors == [] && resp.data.referencedTweets.Some?
    requires FirstResolvable(resp.data.referencedTweets.value, resp.includedTweets, i)
    requires FirstWithId(resp.includedTweets, resp.data.referencedTweets.value[i].id, j)
    ensures ConversationId(resp) == Some(resp.includedTweets[j].conversationId)
  {
    var refs, inc := resp.data.referencedTweets.value, resp.includedTweets;
    var r := QuotedConversation(refs, inc);
    assert r.Some?;
    var i' :| ResolvedBy(refs, inc, i', r.value);
    assert i' == i;
    var t := FindTweet(inc, refs[i].id).value;
    var j' :| FirstWithId(inc, refs[i].id, j') && inc[j'] == t;
    assert j' == j;
  }

  /** A reply to 7 that quotes 8, with only 7 included, keeps its own conversation. */
  lemma ReplyQuotingMissingTweet()
    ensures var own := Tweet(9, 1, 100, "", Some([Reference(RepliedTo, 7), Reference(Quoted, 8)]));
      ConversationId(TweetResponse(own, [Tweet(7, 2, 200, "", None)], [])) == Some(100)
  {
    var own := Tweet(9, 1, 100, "", Some([Reference(RepliedTo, 7), Reference(Quoted, 8)]));
    var resp := TweetResponse(own, [Tweet(7, 2, 200, "", None)], []);
    assert !Resolvable(Reference(Quoted, 8), resp.includedTweets);
    QuoteNotIncluded(resp);
  }
}
