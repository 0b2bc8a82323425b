/**
 * The account-activity webhook: which `tweet_create_events` of a delivery are
 * passed to the tweet handler.
 */
module Webhook {
  import opened Wrappers
  import opened Utils

  /** One entry of an event's `entities.user_mentions`. */
  datatype Mention = Mention(id: Id, screenName: string)

  /** An event's `entities`; `userMentions` is `None` when `user_mentions` is absent. */
  datatype Entities = Entities(userMentions: Option<seq<Mention>>)

  /**
   * The parts of a `tweet_create_events` entry the selection reads. The two flags
   * record whether the keys `in_reply_to_status_id_str` and `quoted_status_id_str`
   * are present at all; their values are never looked at.
   */
  datatype Event = Event(hasInReplyTo: bool, hasQuoted: bool, userId: Id, entities: Entities)

  /** A delivery's JSON body; `tweetCreateEvents` is `None` when that key is absent. */
  datatype Body = Body(tweetCreateEvents: Option<seq<Event>>)

  /** `ms[i]` is the first mention of the user `bot`. */
  predicate FirstMentionOf(ms: seq<Mention>, bot: Id, i: int) {
    0 <= i < |ms| && ms[i].id == bot && forall j :: 0 <= j < i ==> ms[j].id != bot
  }

  /** `next((x for x in mentions if x["id"] == bot), None)`. */
  function FindMention(ms: seq<Mention>, bot: Id): (r: Option<Mention>)
    ensures r.None? <==> forall i :: 0 <= i < |ms| ==> ms[i].id != bot
    ensures r.Some? ==> exists i :: FirstMentionOf(ms, bot, i) && ms[i] == r.value
    decreases |ms|
  {
    if ms == [] then None
    else if ms[0].id == bot then
      assert FirstMentionOf(ms, bot, 0);
      Some(ms[0])
    else
      var r := FindMention(ms[1..], bot);
      assert r.Some? ==> exists i :: FirstMentionOf(ms, bot, i) && ms[i] == r.value by {
        if r.Some? {
          var i :| FirstMentionOf(ms[1..], bot, i) && ms[1..][i] == r.value;
          assert FirstMentionOf(ms, bot, i + 1);
        }
      }
      r
  }

  /** Some mention of the event is of the user `bot`. */
  predicate MentionsBot(e: Event, bot: Id) {
    e.entities.userMentions.Some?
    && exists i :: 0 <= i < |e.entities.userMentions.value| && e.entities.userMentions.value[i].id == bot
  }

  /**
   * An event passes every guard of the loop: it is a reply or a quote, it was not
   * written by the bot, and it mentions the bot.
   */
  predicate Selected(e: Event, bot: Id) {
    (e.hasInReplyTo || e.hasQuoted) && e.userId != bot && MentionsBot(e, bot)
  }

  /** The events that pass, in delivery order. */
  function SelectedEvents(events: seq<Event>, bot: Id): (r: seq<Event>)
    ensures |r| <= |events|
    decreases |events|
  {
    if events == [] then []
    else
      var rest := SelectedEvents(events[..|events| - 1], bot);
      var e := events[|events| - 1];
      if Selected(e, bot) then rest + [e] else rest
  }

  /**
   * `webhook_data`: `handled` lists the events given to `TweetHandler(...).handle()`,
   * one entry per call in call order; the response body is always empty.
   */
  method WebhookData(body: Body, botUserId: Id) returns (response: map<string, string>, handled: seq<Event>)
    ensures response == map[]
    ensures body.tweetCreateEvents.None? ==> handled == []
    ensures body.tweetCreateEvents.Some? ==> handled == SelectedEvents(body.tweetCreateEvents.value, botUserId)
  {
    response := map[];
    handled := [];
    if body.tweetCreateEvents.None? {
      return;
    }
    var events := body.tweetCreateEvents.value;
    for i := 0 to |events|
      invariant handled == SelectedEvents(events[..i], botUserId)
    {
      var tweet := events[i];
      assert events[..i + 1][..i] == events[..i];
      if !(tweet.hasInReplyTo || tweet.hasQuoted) {
        continue;
      }
      if tweet.userId == botUserId {
        continue;
      }
      if tweet.entities.userMentions.None? {
        continue;
      }
      var mention := FindMention(tweet.entities.userMentions.value, botUserId);
      if mention.None? {
        continue;
      }
      handled := handled + [tweet];
    }
    assert events[..|events|] == events;
  }

  /** Exactly the events that pass every guard reach the handler. */
  lemma {:induction false} SelectedMembers(events: seq<Event>, bot: Id, e: Event)
    ensures e in SelectedEvents(events, bot) <==> e in events && Selected(e, bot)
    decreases |events|
  {
    if events != [] {
      var init := events[..|events| - 1];
      assert events == init + [events[|events| - 1]];
      SelectedMembers(init, bot, e);
    }
  }

  /** Each passing event reaches the handler as many times as it was delivered, and no other event does. */
  lemma {:induction false} SelectedCount(events: seq<Event>, bot: Id, e: Event)
    ensures multiset(SelectedEvents(events, bot))[e] == if Selected(e, bot) then multiset(events)[e] else 0
    decreases |events|
  {
    if events != [] {
      var init := events[..|events| - 1];
      assert events == init + [events[|events| - 1]];
      SelectedCount(init, bot, e);
    }
  }

  /** The selection of a delivery is the selections of its parts, one after the other: order is kept. */
  lemma {:induction false} SelectedAppend(a: seq<Event>, b: seq<Event>, bot: Id)
    ensures SelectedEvents(a + b, bot) == SelectedEvents(a, bot) + SelectedEvents(b, bot)
    decreases |b|
  {
    if b == [] {
      assert a + b == a;
    } else {
      var init := b[..|b| - 1];
      assert a + b == (a + init) + [b[|b| - 1]];
      assert (a + b)[..|a + b| - 1] == a + init;
      SelectedAppend(a, init, bot);
    }
  }

  /** An event of the bot's own, one neither replying nor quoting, or one without a mention of the bot is never handled. */
  lemma SkippedEvents(events: seq<Event>, bot: Id, e: Event)
    requires e in events
    requires !(e.hasInReplyTo || e.hasQuoted) || e.userId == bot
             || e.entities.userMentions.None?
             || (forall i :: 0 <= i < |e.entities.userMentions.value| ==> e.entities.userMentions.value[i].id != bot)
    ensures e !in SelectedEvents(events, bot)
  {
    SelectedMembers(events, bot, e);
  }
}
