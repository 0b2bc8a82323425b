# twitter-summary-bot, modelled in Dafny

The bot answers a tweet that tags it with a one-tweet summary of the thread it
was tagged in. Between its network calls it does a handful of pure data
transformations, and these are what this project models and proves things about:

- reading a tweet's parent off its `replied_to` reference (`get_parent`);
- inverting the child-to-parent dictionary into a reply tree (`build_tweet_tree`);
- walking that tree depth first, children in ascending id order (`enumerate_tweet_tree`);
- assembling the thread's texts from the fetched records (the part of
  `get_tweet_thread` after its two lookups);
- the prompt string of `get_gpt_summary`;
- cutting a generated summary back to a tweet on word boundaries (`limit_summary`);
- choosing the conversation for a quote tweet (`get_conversation_id` once the
  lookup response is in hand);
- choosing which account-activity events reach the tweet handler (`webhook_data`).

`python/src/tweets.py:32-95` repeats the code of `build_tweet_tree`, `enumerate_tweet_tree`
and `get_parent` of `python/src/utils.py` (only the docstrings differ); one model covers both copies.

Files: `wrappers.dfy` (Option, Result), `seqs.dfy` (distinctness, `sorted` on ids),
`text.dfy` (`str.split()` and `str.join`), `dicts.dfy` (an insertion-ordered
dictionary), `utils.dfy` (the tree logic), `thread.dfy` (thread assembly),
`summary.dfy` (prompt and length limit), `conversation.dfy` (quote resolution),
`webhook.dfy` (event selection), `scenarios.dfy` (worked examples).

How the model is built:

- Python dictionaries iterate in insertion order, and the order of `parents`
  decides the order of each child list. `Dicts.Dict` keeps the key order next to
  the mapping; `Put` appends a new key and leaves an existing key in its place.
- `build_tweet_tree` and the record loop of `get_tweet_thread` are loops that
  update dictionaries, so they are methods (`Utils.BuildTweetTree`,
  `Thread.GetTweetThread`) proved equal to the functions `Utils.TreeOf`,
  `Thread.TextsAfter` and `Thread.ParentsAfter`; the properties are lemmas about
  those functions. `limit_summary` and `webhook_data` are loops with `break` and
  `continue`, kept as methods (`Summary.LimitSummary`, `Webhook.WebhookData`)
  proved equal to `Summary.Limit` and `Webhook.SelectedEvents`.
- `enumerate_tweet_tree` returns only when no cycle is reachable from the root.
  Every caller passes a ghost `rank` that strictly falls from each parent to each
  child; that is the acyclicity assumption, and `Utils.EnumerateRankIrrelevant`
  shows the result does not depend on which rank is chosen. `Thread.GetTweetThread`
  asks for the rank on the final `parents` dictionary; a caller who knows only that
  every record's own reply edge falls in rank (`Thread.EdgesRanked`) gets there
  through `Thread.ParentsAfterRanked`.
- Ids are natural numbers; the string-to-integer parsing is not modelled.
- `Text.IsSpace` lists the characters Python's `str.isspace` accepts, which are
  the ones `str.split()` splits on.
- The tweet handler called for each selected event is not part of this model:
  `Webhook.WebhookData` returns the list of events it would be called with, in call order.

Quirks of the code, modelled as written:

- A reachable id with no recorded text (a reply by someone other than the thread
  author, say) makes `tweets[x]` at `python/src/tweets.py:228` raise `KeyError`
  rather than be skipped. `Thread.LookupTexts` returns `Err` with the first such id.
- The `summary.replace(...)` at `python/src/tweets.py:285` discards its result,
  so `@GPTSummary` is never rewritten; `Summary.Limit` does no rewrite.
- `limit_summary` does not always bring the summary within 280 characters, although
  its docstring says it does: when
  no word prefix of at least one word fits, the summary comes back unchanged
  (`Summary.LimitNoFit`).
- Whether a prefix fits is judged by the estimate `len(summary) - removed`, which
  subtracts one character per dropped gap and never discounts extra whitespace. A
  summary of two short words separated by 300 spaces comes back unchanged, although
  its first word alone would do (`Summary.WideGapKept`).

## Model

| member | source | states |
|---|---|---|
| Seqs.Sort | python/src/utils.py:47 | `sorted` of a list of ids: the result is ascending and has the same elements with the same multiplicities |
| Seqs.SortedUnique | python/src/utils.py:47 | two ascending lists with the same elements are equal, so the sort result depends only on the multiset of ids |
| Dicts.Dict.Put | python/src/tweets.py:221 | assigning a key keeps the dictionary well formed, maps the key to the new value, appends a new key to the iteration order and leaves an existing key where it was |
| Text.Split | python/src/tweets.py:289 | every word `str.split()` returns is non-empty and free of whitespace |
| Text.Join | python/src/tweets.py:246 | `sep.join(ws)`: empty for no words; otherwise it starts with the first word and is as long as the words plus one separator per gap |
| Text.SplitJoin | python/src/tweets.py:289-293 | splitting words joined by single spaces gives back the same words |
| Text.SplitBlanks | python/src/tweets.py:289 | leading whitespace of any length is skipped by `str.split()` |
| Text.JoinSpaceLength | python/src/tweets.py:293 | joining words with single spaces costs their lengths plus one per gap |
| Text.SplitLength | python/src/tweets.py:289-292 | the words of a string, with one separator per gap, are never longer than the string |
| Utils.FirstReply | python/src/utils.py:67-69 | the id of the first reference of type `replied_to`; none exactly when no reference has that type |
| Utils.GetParent | python/src/utils.py:66-70 | a parent exactly when `referenced_tweets` is present and holds a `replied_to` reference, and then the first one's id; `quoted` and other types are ignored |
| Utils.TreeOf | python/src/utils.py:19-22 | the tree `build_tweet_tree` returns: its keys are exactly the parent values of `parents`; `TreeChildIff`, `TreeKeys` and `TreeWellFormed` give its meaning |
| Utils.BuildTweetTree | python/src/utils.py:19-22 | the loop appending each child to its parent's list yields exactly the tree `TreeOf(parents)` |
| Utils.TreeChildIff | python/src/utils.py:19-22 | `c` is in `tree[p]` exactly when `parents[c] == p` |
| Utils.TreeKeys | python/src/utils.py:19-22 | the keys of the tree are exactly the parent values, and no child list is empty |
| Utils.TreeWellFormed | python/src/utils.py:20-21 | every child sits under exactly one parent and no list repeats a child |
| Utils.TreeSize | python/src/utils.py:20-21 | the child lists together are as long as `parents` has entries |
| Utils.TreeOfPutNew | python/src/utils.py:20-21 | a child inserted later is appended at the end of its parent's list: lists keep insertion order and are not sorted |
| Utils.Enumerate | python/src/utils.py:43-49 | the walk is never empty and starts with the root; a root with no children gives exactly `[root]` |
| Utils.EnumerateSmallestChildFirst | python/src/utils.py:45-49 | after a root with children comes its least child, whatever the order of its list |
| Utils.EnumerateMembers | python/src/utils.py:26-28 | an id is in the walk exactly when it is the root or reachable from it; disconnected tweets never appear |
| Utils.EnumerateDistinct | python/src/utils.py:43-49 | on a tree where every child has one parent and lists do not repeat, the walk repeats no id |
| Utils.EnumerateExactlyOnce | python/src/utils.py:43-49 | on such a tree each reachable id occurs exactly once and every other id not at all |
| Utils.TreeOfRanked | python/src/utils.py:19-22 | a tree built from an acyclic `parents` is acyclic in the same rank |
| Utils.TreeEnumerationExactlyOnce | python/src/utils.py:19-49 | on the tree built from an acyclic `parents`, each id reachable from the root is enumerated exactly once and nothing else is |
| Utils.EnumerateIgnoresListOrder | python/src/utils.py:47 | two trees whose child lists hold the same children in any order give the same walk |
| Utils.EnumerateIgnoresInsertionOrder | python/src/utils.py:19-49 | dictionaries with the same entries inserted in different orders give the same walk |
| Utils.EnumerateRankIrrelevant | python/src/utils.py:43-49 | the walk does not depend on the rank that witnesses acyclicity |
| Thread.TextsAfter | python/src/tweets.py:215-219 | the `tweets` dictionary after the record loop; it always holds the conversation id, and `TextsAfterMeaning` gives the rest of its meaning |
| Thread.ParentsAfter | python/src/tweets.py:216-221 | the insertion-ordered `parents` dictionary after the record loop; it is well formed (`Valid`), and `ParentsAfterMeaning` gives its meaning |
| Thread.TextsAfterMeaning | python/src/tweets.py:215-219 | `tweets` holds the conversation id and the ids of records by the thread author in the conversation, the last such record's text wins, and the start text stays when no such record has the conversation's id |
| Thread.ParentsAfterMeaning | python/src/tweets.py:216-221 | `parents` has an entry for every record with a `replied_to` parent, whoever wrote it, and the last such record decides the parent |
| Thread.ParentsAfterRanked | python/src/tweets.py:217-221 | when the records' reply edges are acyclic, so is `parents`; a caller with per-record edges ranked (`EdgesRanked`) uses it to meet `GetTweetThread`'s requirement on the final `parents` |
| Thread.Without | python/src/tweets.py:228 | dropping the tagging id keeps exactly the other ids, each as often as it occurred |
| Thread.WithoutAppend | python/src/tweets.py:228 | dropping distributes over concatenation, so the remaining ids keep their order |
| Thread.LookupTexts | python/src/tweets.py:227-229 | a list exactly when every id other than the tagging id has a text, then the texts of the remaining ids in order; otherwise the first missing id, where the lookup raises |
| Thread.GetTweetThread | python/src/tweets.py:215-230 | for an acyclic final `parents`, the loop over `includes + data`, the tree and the walk from the conversation id produce exactly the lookup of the walk's texts, the tagging tweet dropped |
| Thread.TaggingTextUnused | python/src/tweets.py:226-229 | the result is the same whether or not the tagging tweet's text was recorded |
| Summary.Prompt | python/src/tweets.py:246-249 | the prompt starts with `<tweet>`, ends with the fixed instruction, and is as long as the tags, the tweets and one `</tweet><tweet>` per gap |
| Summary.PromptOfEmptyThread | python/src/tweets.py:246-249 | an empty thread gives `<tweet></tweet>` followed by the instruction |
| Summary.PromptTagsEachTweet | python/src/tweets.py:246-249 | for a non-empty thread the prompt is each tweet in its own `<tweet>…</tweet>` pair, in order, followed by the instruction |
| Summary.Clamp | python/src/tweets.py:293 | `s[:280]` is at most 280 long and leaves a short string alone |
| Summary.LastFit | python/src/tweets.py:290-294 | the largest index from 1 up to the bound whose estimate fits, or none when no such index fits |
| Summary.Limit | python/src/tweets.py:285-295 | a summary of at most 280 characters is returned unchanged, `@GPTSummary` included; any result is within 280 or the input itself |
| Summary.LimitSummary | python/src/tweets.py:285-295 | the downward loop with its early `break` returns exactly `Limit(summary)` |
| Summary.RemovedFromTotal | python/src/tweets.py:291 | the accumulated `removed` is the removed words' lengths plus one each |
| Summary.RemovedFromMonotone | python/src/tweets.py:290-292 | stopping at an earlier index has removed at least as much |
| Summary.KeptFits | python/src/tweets.py:289-293 | for every prefix of at least one word, the estimate `len(summary) - removed` is never below the real length of those words joined by single spaces |
| Summary.LimitTruncation | python/src/tweets.py:289-293 | on the truncation path the result is the first `i >= 1` words joined by single spaces for the largest fitting `i`, at most 280 long, so the `[:280]` never cuts |
| Summary.LimitKeepsWholeWords | python/src/tweets.py:289-294 | the result is the input, or a proper non-empty prefix of its words: words go only from the end and none is cut |
| Summary.LimitNoFit | python/src/tweets.py:290-295 | a long summary none of whose prefixes of at least one word has an estimate within 280 (one word, a first word over 280, or enough extra whitespace) comes back unchanged however long it is |
| Summary.FirstWordTooLong | python/src/tweets.py:290-295 | a long summary whose first word alone is over 280 characters comes back unchanged |
| Summary.WideGapKept | python/src/tweets.py:288-295 | `"a"`, 300 spaces and `"b"` split into the two one-character words and still come back unchanged |
| Summary.LimitIdempotent | python/src/tweets.py:285-295 | limiting twice is limiting once |
| Conversation.FindTweet | python/src/tweets.py:129-131 | the first included tweet with the given id, none exactly when there is no such tweet |
| Conversation.QuotedConversation | python/src/tweets.py:125-131 | none exactly when no `quoted` reference has its tweet included; otherwise the conversation of the first included match of the first such reference |
| Conversation.ConversationId | python/src/tweets.py:120-132 | none exactly when the response has errors; otherwise the tweet's own conversation when no `quoted` reference has its tweet included, and else the conversation of the first included match of the first such reference |
| Conversation.OnlyQuotesRedirect | python/src/tweets.py:125-132 | a tweet with no `quoted` reference keeps its own conversation |
| Conversation.QuoteNotIncluded | python/src/tweets.py:125-132 | a tweet none of whose `quoted` references has its tweet included keeps its own conversation, whatever else it references |
| Conversation.ReplyQuotingMissingTweet | python/src/tweets.py:125-132 | a reply to 7 that quotes 8, with only 7 included, keeps its own conversation |
| Conversation.QuoteResolved | python/src/tweets.py:125-132 | the first resolvable `quoted` reference resolves to the conversation of the first included tweet with its id |
| Webhook.FindMention | python/src/webhook.py:72-75 | the first mention of the bot, none exactly when the bot is not mentioned |
| Webhook.WebhookData | python/src/webhook.py:56-82 | the response is always `{}`; a body without `tweet_create_events` handles nothing; otherwise the handler is called on exactly the selected events, in order |
| Webhook.SelectedEvents | python/src/webhook.py:60-80 | the events the loop hands to the handler, never more than were delivered; `SelectedMembers`, `SelectedCount` and `SelectedAppend` give its meaning |
| Webhook.SelectedMembers | python/src/webhook.py:60-80 | an event is handled exactly when it is delivered and passes every guard |
| Webhook.SelectedCount | python/src/webhook.py:60-80 | each passing event is handled once per delivery, every other event never |
| Webhook.SelectedAppend | python/src/webhook.py:60-80 | handling keeps delivery order: the selection of two parts is the two selections one after the other |
| Webhook.SkippedEvents | python/src/webhook.py:61-78 | an event that is neither a reply nor a quote, is the bot's own, has no `user_mentions`, or does not mention the bot is never handled |
| Scenarios.ReplyTree | python/src/utils.py:19-22 | replies recorded as 3, 2 under tweet 1 and 4 under 2 give the lists `[3, 2]` and `[4]`, unsorted |
| Scenarios.ReplyTreeWalk | python/src/utils.py:43-49 | that tree walks as `[1, 2, 4, 3]` |
| Scenarios.ThreadLookupFails | python/src/tweets.py:227-229 | walk `[1, 2, 4, 5, 3]` with tagging tweet 5 and no text for 3 fails on 3 |
| Scenarios.ThreadLookupSucceeds | python/src/tweets.py:227-229 | with every text present it gives the texts of 1, 2, 4, 3 in that order |

## Left out

- The Twitter and OpenAI clients (`get_tweet`, `search_recent_tweets`, `create_tweet`, the completion call): network I/O. Their results are inputs of the model.
- `get_start_tweet`, `get_conversation_tweets` and its polling loop: network calls, wall-clock time and sleeping.
- `get_conversation_summary` and `reply_to_user`: orchestration of network calls around modelled steps.
- The `.strip()` of the completion text and the empty-summary error path of `get_gpt_summary`: they act on the completion service's answer, which is not modelled.
- `webhook_challenge`: HMAC-SHA256 and base64, foreign cryptography.
- `TweetHandler(tweet).handle()`: its definition is not part of this model; the model records which events it is called with and ignores its result, which only goes to the log.
- `python/src/keys.py`: it reads secrets from a parameter store at import time.
- Logging, the Lambda resolver and its decorators, and environment reads: plumbing. The bot's user id is a parameter.
- `int(...)` parsing of string ids: ids are natural numbers, so 64-bit limits are not modelled.
- A response without an `includes["tweets"]` expansion: `resp.includes["tweets"]` (`python/src/tweets.py:129`) and `data.includes["tweets"]` (`python/src/tweets.py:217`) then raise `KeyError`. The model's included tweets are always present, so that case becomes an empty list.
- An event without `entities`: `tweet["entities"]` (`python/src/webhook.py:69`) would raise `KeyError`; the model's events always carry their entities.
- Webhook.WebhookData: an exception raised by the handler ends the loop in the program, but the model's handler never fails, so `handled` lists every later selected event as well.
- `get_tweet_thread`'s early `None` returns and `get_conversation_id`'s missing `data`: they depend on network responses, which are inputs here.
- Unicode details of `str.split()` beyond the `str.isspace` character set, and of `len`: strings are sequences of code points.
- Utils.Enumerate: termination rests on a ghost rank supplied by the caller, so the model excludes every cycle in the final `parents` dictionary, including cycles not reachable from the root, with which the program still returns. With a cycle reachable from the root, Python's recursion stops with `RecursionError` at the interpreter's recursion limit (1000 frames by default); the model has no such case.
- Utils.Enumerate: the recursion limit is not modelled. An acyclic chain deeper than the limit also raises `RecursionError` in the program, while the model returns its walk. One search asks for at most 100 tweets (`python/src/tweets.py:177`), plus their includes, far below the limit.
- Utils.TreeSize: the total length of the child lists is stated against the length of the dictionary's key order, which `Valid` makes the number of entries, rather than against the cardinality of the mapping.
