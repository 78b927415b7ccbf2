# groupme-cli core, modelled in Dafny

groupme-cli is a command-line tool and a small web UI around the GroupMe REST
API and its Faye/Bayeux push service. This project models the logic that is
the tool's own, as opposed to the HTTP and terminal plumbing:

- **Paging**: the cursor loops of the REST client.
  - `get_group_messages_latest` and `get_direct_messages` fetch the latest N messages.
  - `export_group_messages` fetches the whole history.
  - `search_direct_messages` is a client-side search with a page budget.
  - `list_all_groups` pages through the groups by page number.
- **Api**: the client's pure parts.
  - The token check in the constructor.
  - The request parameters and JSON bodies it builds.
  - The message payload.
  - `bulk_like` / `bulk_unlike`, which process a list of items one by one and report a summary.
- **Bayeux**: the pure parts of `watch_group`.
  - The handshake and subscribe messages.
  - Picking the `clientId` out of the handshake reply.
  - Turning received frames into the payloads it yields.
- **Stats**: `stats_from_messages`, which gives the top posters, the most-liked messages and the hour-of-day histogram.
- **Cli**: the glue in `main.py`.
  - The `--limit` cap of 500.
  - Oldest-first display of newest-first messages, and the name fallbacks.
  - The 60-character DM snippet.
  - The `--member key=value,...` parser of `group-add-members` and its exit code 2.
- **Web**: the glue in `webapp.py`.
  - The bulk like/unlike id list and payload.
  - `group_update`'s form flags and keyword arguments.
  - The add-member field filter.
  - The DM view's other-party name.
  - The `/me` id extraction and the error events of the watch stream.

Shared modules: `Wrappers` (Option, Result), `Seqs` (Min, Take, Reverse),
`Text` (Python `strip`, `split`, ASCII `lower`, `in`, `replace`, `int()` of a
string), `Json` (a JSON value with Python truthiness, `dict.get`, `or` and
`str`) and `Sorting` (a stable descending sort by key: Python's
`sort(reverse=True, key=...)`).

## How the outside world is modelled

- **The server** is the finite list `pages` of the answers it gives, in request order.
  - A request past the end of the list gets an empty page.
  - A response that is not an object, or that lacks the item key, reads as an empty page, as in the source.
  - Each loop returns its items and the log of what it asked for (page limit, `before_id`, page number).
  - For the latest-N and export loops there is also a server that answers honestly from a stored newest-first collection (`Paging.ServedHonestly`). Against it, the loops return the N newest messages, or the whole history.
- **Page items** are generic; a function `idOf` gives the `id` each loop reads from the last item of a page.
- **Clocks, randomness and the outside world** are parameters:
  - the handshake timestamp;
  - the fresh `uuid4` of a message payload;
  - each like/unlike call's outcome (`None` for success, the error text otherwise);
  - the `GROUPME_TOKEN` environment value;
  - the `/me` response;
  - the handshake reply;
  - the decoded frames of the push socket.
- **Python `None`** is `JNull`. A missing form field is the empty string, which is what the web forms default to.
- **Exceptions** are modelled as `None`/`Failure` results where the modelled code raises them:
  - the `ValueError` of the constructor;
  - the `TypeError` of an unhashable poster or an unsized `favorited_by`;
  - the `AttributeError` of a handshake reply that is neither a list nor an object;
  - the `AttributeError` of a non-string DM text;
  - `typer.Exit(2)`;
  - the `SystemExit` of `build_client_from_env` on a missing token, as the watch stream meets it.

Behaviour of the code worth noting:

- A message with a missing or falsy `created_at` is counted in hour 0, not skipped. The code computes `int(m.get("created_at") or 0)`.
- A handshake reply without a `clientId` raises nothing. The subscribe messages are sent with `clientId` null.
- `read` has no `"-"` fallback for the name, while `read-dm` has one. Both are modelled as written.
- The watch stream's `"Missing token"` event is never sent. `build_client_from_env()` runs first and raises SystemExit on a missing or empty `GROUPME_TOKEN`. SystemExit is not an `Exception`, so the stream's `except` does not catch it, and the later token check reads the same variable after it was found non-empty.
- The watch stream's `/me` check tests whether the `id` key is present. An `id` of `""` is therefore taken, then rejected as "Unexpected /me response shape". An `id` of `None` becomes the string `"None"` and is accepted.

## Model

| member | source | states |
|---|---|---|
| Api.NewClient | groupme_api.py:57-70 | an empty token is refused with "Token must be provided" and any other token is accepted; the client keeps the token and sends it as `Authorization: Bearer <token>` and as `X-Access-Token` |
| Api.CreateGroupBody | groupme_api.py:140-146 | the body always holds `name`; it holds `description` and `share` exactly when they are given (not None); `share` is coerced to a boolean; no other key |
| Api.UpdateGroupBody | groupme_api.py:148-161 | each of the five fields is in the body exactly when it is given; `share` and `office_mode` are coerced to booleans; no other key |
| Api.UpdateGroupBodyEmpty | groupme_api.py:150-160 | the update body is empty if and only if no field is given |
| Api.ClampLimit | groupme_api.py:236 | the page limit sent is always within 1..100, unchanged inside that range, 1 below it and 100 above it |
| Api.GroupMessagesParams | groupme_api.py:234-243 | the query holds the clamped `limit`; it holds each cursor exactly when that cursor is truthy, with the value given; no other key |
| Api.DirectMessagesParams | groupme_api.py:274-285 | as above, and it also holds `other_user_id` exactly when that is truthy |
| Api.MessagePayload | groupme_api.py:215-221 | the payload is `{"message": {...}}` with exactly `source_guid`, `text` and `attachments`; a falsy source guid is replaced by a fresh one, and falsy attachments by `[]` |
| Api.SendGroupMessage | groupme_api.py:213-224 | a dry run returns `{"dry_run": True, "payload": payload}` and sends nothing; otherwise the same payload is posted to `/groups/<id>/messages` |
| Api.Bulk | groupme_api.py:438-472 | bulk_like/bulk_unlike send the calls of the reference definition `Calls` and report the errors of `Failures`, in item order; `failed` is the number of errors and `ok + failed` is the number of items |
| Api.WellFormed | groupme_api.py:448-451 | the rule for an item that names both ids: an object whose `conversation_id` and `message_id` are both truthy; Api.BulkItems states what happens to the others |
| Api.CallOf | groupme_api.py:448-453 | the `like_message` / `unlike_message` call for a well-formed item, with the ids rendered by `str()` |
| Api.ItemError | groupme_api.py:447-456 | how one item ends: a non-object fails with the AttributeError of `.get`, a missing or falsy id with "missing ids", and a well-formed item as its call does; Api.Bulk reports these |
| Api.Calls | groupme_api.py:446-453 | the calls of the bulk loop, one per well-formed item in input order; Api.BulkItems and Api.BulkAppend state its properties |
| Api.Failures | groupme_api.py:446-457 | the `errors` list: one entry per failing item, in input order, with its message; Api.Bulk counts it |
| Api.BulkAppend | groupme_api.py:446-456 | items are processed independently: the calls and errors for a concatenation are those of the parts, concatenated |
| Api.BulkItems | groupme_api.py:446-456 | every call names the action and non-empty conversation and message ids; an object lacking either id is reported as "missing ids"; there are no more calls than items, and every item that is not reported made a call |
| Bayeux.HandshakeRequest | utils.py:24-29 | the handshake message has exactly the keys channel `/meta/handshake`, version "1.0", connection types `["websocket"]` and `ext`; `ext` has exactly the access token and the timestamp |
| Bayeux.HandshakeClientId | utils.py:32-40 | the loop over a list reply finds the client id that `ClientIdOf` defines; a reply that is neither a list nor an object fails |
| Bayeux.IsHandshakeReply | utils.py:36 | the rule for a batch element that answers the handshake: an object on `/meta/handshake` with a truthy `clientId` |
| Bayeux.FirstClientId | utils.py:34-38 | the client id of the first element answering the handshake, or null; Bayeux.FirstClientIdSpec characterises it |
| Bayeux.ClientIdOf | utils.py:33-40 | the client id of a list reply is FirstClientId; of an object reply its `clientId` (null when missing), with no check of its channel; any other reply fails (AttributeError) |
| Bayeux.FirstClientIdSpec | utils.py:33-38 | for a list reply, the client id is null exactly when no element is an object on `/meta/handshake` with a truthy `clientId`; otherwise it is the `clientId` of the first such element |
| Bayeux.ClientIdOfBatch | utils.py:35-38 | the search stops at the first handshake reply: whatever follows it in the list is ignored |
| Bayeux.SubscribeMessage | utils.py:43-47 | a subscribe message has exactly the channel `/meta/subscribe`, the client id and the subscription |
| Bayeux.Subscribe | utils.py:42-48 | one subscribe message is sent per channel, in channel order; message `i` is exactly `{"channel": "/meta/subscribe", "clientId": client_id, "subscription": channels[i]}`, with the `clientId` key present even when the id is null |
| Bayeux.PayloadCases | utils.py:55-61 | a non-object envelope yields nothing; a non-null `data` is the payload; a null `data` falls back to a truthy `ext.data` when `ext` is an object; a yielded payload is never null |
| Bayeux.Envelopes | utils.py:54 | a list frame is its list of envelopes; any other frame is one envelope; Bayeux.FrameEventsOf states it |
| Bayeux.Payload | utils.py:56-61 | what one envelope yields: `data` unless null, else a truthy `ext.data` when `ext` is an object; non-objects yield nothing; Bayeux.PayloadCases states it case by case |
| Bayeux.EnvelopeEvents | utils.py:55-62 | the payloads of a list of envelopes, in order; Bayeux.EnvelopeEventsSpec characterises it by positions |
| Bayeux.Events | utils.py:50-62 | the payloads of a sequence of received frames, frame by frame; Bayeux.EventsAppend and Bayeux.EventsFlatten state its properties |
| Bayeux.FrameEventsOf | utils.py:54 | a frame that is a list is a list of envelopes; any other frame is a single envelope |
| Bayeux.EnvelopeEventsSpec | utils.py:55-62 | the payloads yielded for a list of envelopes come from strictly increasing envelope positions, each one the payload of its envelope, and every envelope that has a payload is among them |
| Bayeux.EnvelopeEventsAppend | utils.py:55-62 | the envelopes of a frame are handled one at a time: the yield for a concatenation is the concatenation of the yields |
| Bayeux.EventsAppend | utils.py:50-62 | frames are handled one at a time, in order: the payloads for a concatenation of frames are the concatenation of the payloads |
| Bayeux.EventsFlatten | utils.py:50-62 | the listen loop yields what the flattened list of all envelopes received yields |
| Bayeux.EventsBound | utils.py:55-62 | at most one payload is yielded per envelope, and none of them is null |
| Cli.CapLimit | main.py:99-100 | a `--limit` above 500 is lowered to 500 and any other limit is unchanged (read-dm does the same at main.py lines 123-124) |
| Cli.Display | main.py:111 | the rows are shown oldest first: row `i` is the message at position `n - 1 - i` of the newest-first list |
| Cli.DisplayAppend | main.py:110-111 | showing newer then older messages puts the older ones on top |
| Cli.DmRowName | main.py:136 | the name shown for a DM is always truthy: the name, else the sender id, else "-" |
| Cli.ReadRow | main.py:112-115 | a `read` row: the name is `name or sender_id` with no further default, the text `text or ""`, the attachments `attachments or []` |
| Cli.DmRow | main.py:135-137 | a `read-dm` row: the name is `name or sender_id or "-"`, the text `text or ""`; Cli.DmRowName states the fallback |
| Cli.Truncate | main.py:221-222 | a snippet is at most 60 characters; one of at most 60 is unchanged, and a longer one becomes its first 57 characters followed by "..." |
| Cli.Snippet | main.py:220-222 | the snippet exists exactly when the text is falsy or a string; a falsy text gives ""; it has no newline (each newline becomes a space) and at most 60 characters, and a longer text is cut to 57 characters plus "..." |
| Cli.SplitPairOf | main.py:364-365 | `key=value` with no `=` in the key splits at its first `=` back into that key and value |
| Cli.Parts | main.py:363 | the parts of one `--member` value: split on ",", stripped, empty ones dropped; Text.Split and Text.StrippedParts state their properties |
| Cli.Pairs | main.py:364-366 | the stripped key and value of each part holding an `=`, in order; Cli.PairsNone, Cli.PairsBound and Cli.PairsStripped state its properties |
| Cli.Fill | main.py:366 | `entry[k] = v` for each pair in turn; Cli.FillKeys and Cli.FillLast state that later duplicates overwrite |
| Cli.EntryOf | main.py:362-366 | the entry built from one `--member` value; Cli.EntryEmpty and Cli.EntryStripped state its properties |
| Cli.FillKeys | main.py:366 | a key is in the entry exactly when some pair has that key |
| Cli.FillLast | main.py:366 | the value kept for a key is that of its last pair |
| Cli.PairsBound | main.py:363-366 | there are no more pairs than comma-separated parts |
| Cli.PairsNone | main.py:363-366 | no pair is found exactly when no stripped part contains `=` |
| Cli.PairsStripped | main.py:366 | every key and value taken from a part is stripped of surrounding whitespace |
| Cli.FillEmpty | main.py:366-367 | the entry is empty exactly when no pair was found |
| Cli.EntryEmpty | main.py:363-367 | the entry of a `--member` value is empty exactly when none of its stripped parts contains `=` |
| Cli.EntryStripped | main.py:363-366 | every key and value of an entry is stripped |
| Cli.ParseEntry | main.py:362-366 | the inner loop builds the entry that the reference definition `EntryOf` gives |
| Cli.ParseMembers | main.py:360-371 | the outer loop gives the member list of the reference definition, or exit code 2 when it is empty |
| Cli.MembersOf | main.py:360-368 | the non-empty entries of the `--member` values, in order; Cli.MembersShape and Cli.MembersEmpty state its properties |
| Cli.MembersResult | main.py:360-371 | the members to add, or exit code 2 when there are none; Cli.MembersExit states when it fails |
| Cli.MembersShape | main.py:367-368 | empty entries are dropped: there are no more members than `--member` values, and no member is empty |
| Cli.MembersEmpty | main.py:367-369 | the member list is empty exactly when every `--member` value gives an empty entry |
| Cli.MembersNone | main.py:360-369 | the member list is empty exactly when no part of any `--member` value contains `=` |
| Cli.MembersExit | main.py:369-371 | the command exits with code 2 exactly when no part of any `--member` value contains `=` |
| Json.PyStrEmpty | webapp.py:424 | `str(v)` is empty only for the empty string, so `not user_id` rejects only an `id` of `""` |
| Json.Truthy | groupme_api.py:450 | Python's truth value: null, false, 0, "", [] and {} are false, everything else true |
| Json.Get | utils.py:86 | `d.get(key)`: the value under the key, or null when it is missing |
| Json.Or | utils.py:86 | Python's `a or b`: `a` when it is truthy, otherwise `b` |
| Json.PyStr | webapp.py:419 | `str()` of a scalar: `None`, `True`/`False`, decimal digits, the string itself; Json.PyStrEmpty states when it is empty |
| Paging.FetchLatest | groupme_api.py:186-211 | the latest-N loop (group or DM endpoint) returns the items and sends the requests of the reference definition `Latest` |
| Paging.Param | groupme_api.py:200-201 | the rule for an optional cursor: it is sent only when truthy, so the empty string is not sent |
| Paging.LastId | groupme_api.py:208 | the next cursor: the id of the last item of the page |
| Paging.LatestFrom | groupme_api.py:197-211 | the latest-N loop from a given count and cursor: ask for min(100, remaining), stop on an empty page, a short page, or once `limit` items are in; Paging.LatestFromStops, Paging.LatestFromItems, Paging.LatestFromRequests and Paging.LatestFromCount state its properties |
| Paging.Latest | groupme_api.py:192-211 | the whole latest-N call, with nothing requested when `limit <= 0`; Paging.LatestContract and Paging.LatestHonest characterise it |
| Paging.LatestContract | groupme_api.py:192-211 | limit <= 0 sends and returns nothing. Otherwise: at most `limit` items, being the first `limit` of the pages fetched; 1 to ceil(limit/100) requests; the first has no cursor and each later one carries the last id of the page before; each asks for min(100, remaining) items, which is within 1..100; the loop continues after full pages that leave it short and stops at the first empty page, short page, or page that reaches the limit |
| Paging.LatestFromStops | groupme_api.py:197-210 | the loop continues after exactly the rounds that got a full, non-empty page below the limit, and the last request is the one that got an empty page, a short page, or reached the limit |
| Paging.LatestFromItems | groupme_api.py:204-211 | the items are the first `limit` of what was collected plus the pages fetched |
| Paging.LatestFromCount | groupme_api.py:197-209 | with `c` items already collected, at most ceil((limit - c)/100) further requests are sent |
| Paging.LatestFromRequests | groupme_api.py:197-208 | request `i` asks for min(100, limit - seen) items and carries as its cursor the last id of page `i - 1` |
| Paging.LatestRequests | groupme_api.py:196-202 | from an empty start, request `i` asks for min(100, limit - items in pages before `i`) items, within 1..100; the cursor is absent on the first request and is the previous page's last id after that |
| Paging.LatestHonest | groupme_api.py:186-211 | against a server answering newest-first from a collection with distinct ids, the call returns exactly the `min(limit, size)` newest messages in order, with no duplicate ids |
| Paging.ExportGroupMessages | utils.py:65-77 | the export loop yields the items and sends the requests of the reference definition `ExportFrom` |
| Paging.ExportFrom | utils.py:67-77 | the export loop from a cursor: ask for 100, stop after an empty page or a page shorter than 100; Paging.ExportContract and Paging.ExportHonest characterise it |
| Paging.ExportContract | utils.py:67-77 | every request asks for 100 messages; the first has no cursor and each later one the last id of the page before; the loop continues exactly after full pages and stops after the first empty or short page; it yields every message of the pages fetched, in order |
| Paging.ExportHonest | utils.py:65-77 | against an honest server it yields the whole history, newest first, in size/100 + 1 requests, the `i`-th later request using the id of message `100 i` as its cursor |
| Paging.ExportOf237 | utils.py:65-77 | a 237-message group is exported in 3 requests, with cursors None, the id of message 100 and the id of message 200 |
| Paging.SearchDirectMessages | groupme_api.py:287-312 | the search loop returns the results and sends the requests of the reference definition `Search` |
| Paging.Matching | groupme_api.py:304-307 | the messages whose lower-cased text contains the query, in order; Paging.MatchingMembers characterises it |
| Paging.SearchFrom | groupme_api.py:299-311 | the search loop with a page budget and a cursor: fetch 100, keep the matches, stop on an empty or short page or when the budget is spent; Paging.SearchContract characterises it |
| Paging.Search | groupme_api.py:287-312 | the search call: lower-cased query, budget `max_pages`, DM endpoint filtered by `other_user_id` when it is non-empty; Paging.SearchCall states it |
| Paging.MatchingLoop | groupme_api.py:304-307 | the inner loop keeps the messages of the reference filter `Matching`, in order |
| Paging.MatchingMembers | groupme_api.py:304-307 | a message is kept exactly when it was fetched and its lower-cased text contains the lower-cased query |
| Paging.MatchingConcat | groupme_api.py:304-307 | filtering is per message: the matches of concatenated pages are the concatenated matches |
| Paging.MatchingEmptyQuery | groupme_api.py:298-306 | an empty query matches every message |
| Paging.SearchStops | groupme_api.py:299-311 | no request when the budget is not positive, otherwise 1 to `max_pages` requests. The loop continues only after full pages and stops at the budget, an empty page or a short page |
| Paging.SearchItems | groupme_api.py:300-307 | the results are the matching messages of the pages fetched, in page order |
| Paging.SearchRequests | groupme_api.py:300-308 | every request asks for 100 messages; the first carries the starting cursor and each later one the last id of the page before |
| Paging.SearchContract | groupme_api.py:295-312 | the conjunction of the three: request count and stopping rule, chained cursors, and results = the matches in the fetched pages |
| Paging.SearchCall | groupme_api.py:287-312 | at most `max_pages` requests, all to the DM endpoint, filtered by `other_user_id` exactly when one is given; an empty query returns every message fetched |
| Paging.ListAllGroups | groupme_api.py:117-127 | the page-number loop returns the groups and the page numbers of the reference definition `GroupsFrom` starting at page 1 |
| Paging.GroupsFrom | groupme_api.py:119-127 | the page-number loop: request page `n`, stop on the first empty page, otherwise append its groups and go on with `n + 1`; Paging.GroupsContract characterises it |
| Paging.GroupsContract | groupme_api.py:119-127 | pages 1, 2, 3, ... are requested in order until the first empty page; the groups of every page before it are returned in order |
| Seqs.Reverse | webapp.py:179 | `reversed` has the same length, and element `i` is element `n - 1 - i` of the input |
| Seqs.ReverseReverse | webapp.py:179 | reversing twice gives the original order back |
| Sorting.SortDesc | utils.py:96 | `sort(reverse=True, key=...)` gives a list sorted by descending key that is a permutation of its input |
| Sorting.SortStable | utils.py:96 | the sort is stable: the items with any given key keep their relative order |
| Sorting.TopOfSorted | utils.py:99 | an item left out of the first `n` of the sorted list has a key no larger than any item kept, and then `n` items were kept |
| Stats.HashKey | utils.py:86-87 | a poster value can be a counter key unless it is a list or an object (such a key raises TypeError) |
| Stats.PosterOf | utils.py:86 | the counter key of a message: `name or sender_id` |
| Stats.LikeCount | utils.py:88 | `len(m.get("favorited_by", []))`: 0 when the key is missing, the length of a list, string or object, and a failure (TypeError) for null, a number or a boolean |
| Stats.ToInt | utils.py:91 | Python's `int()` of a JSON value: a boolean as 0 or 1, an integer as itself, a string through Text.ParseInt, anything else a failure that the source catches |
| Stats.Rejects | utils.py:86-88 | the rule for a message that makes the loop raise: an unhashable poster or a `favorited_by` without a length; Stats.FoldFails states it |
| Stats.HourOf | utils.py:90-95 | the hour bucket of a message is within 0..23 |
| Stats.StatsFromMessages | utils.py:80-101 | the loop computes the summary of the reference definition `StatsOf`, or fails where the source raises |
| Stats.Fold | utils.py:85-95 | the three accumulators after the loop over the messages, or a failure where the loop raises; Stats.FoldPosters, Stats.FoldLiked, Stats.FoldHist and Stats.FoldFails characterise them |
| Stats.StatsOf | utils.py:80-101 | the returned dictionary: `most_common(10)` of the poster counter, the first 10 of the stably sorted likes table, and the sorted hour rows; Stats.TopPosters, Stats.MostLiked and Stats.HourHist characterise it |
| Stats.FoldFails | utils.py:85-89 | the computation fails exactly when some message has an unhashable poster or a `favorited_by` without a length |
| Stats.FoldStaysFailed | utils.py:85-89 | once a message has made the loop raise, no later message changes that |
| Stats.BumpKeys | utils.py:87 | `counter[name] += 1` adds a new key at the end exactly when the key is new, and keeps the first-insertion order |
| Stats.BumpCounts | utils.py:87 | incrementing a key raises that key's count by one, leaves every other count alone, and raises the total by one |
| Stats.FoldPosters | utils.py:85-87 | after the loop, the counter has distinct keys; each key's count is the number of messages posted under that name (or sender id), and the counts add up to the number of messages |
| Stats.FoldLiked | utils.py:88-89 | after the loop, the likes table has one entry per message, in order, pairing each message with its like count |
| Stats.FoldHist | utils.py:90-95 | after the loop, each hour key in the histogram is within 0..23 and counts the messages in that hour (at least one); an hour with no message has no key |
| Stats.MostCommon | utils.py:98 | `most_common(10)` lists at most 10 distinct keys by descending count, each with its exact count; a key left out has a count no larger than any listed, and then 10 were listed; among keys with equal counts, the listed ones are the first in the counter's order, in that order |
| Stats.TopPosters | utils.py:98 | `top_posters`: at most 10 posters by descending count, each with the exact number of their messages; a poster left out posted no more than any poster listed, and then 10 were listed; posters with equal counts are the first of that count in the counter, in its order |
| Stats.FirstAt | utils.py:85-87 | the index of a poster's first message, or the number of messages when there is none |
| Stats.PostersFirstSeen | utils.py:85-87 | the counter lists every poster of the messages, each once, in the order of their first messages: `Counter` keeps first-insertion order |
| Stats.MostCommonTies | utils.py:98 | among entries with equal counts, `most_common` keeps the counter's order and takes them from its front |
| Stats.TopPostersTies | utils.py:98 | how `most_common` breaks ties in `top_posters`: of two listed posters with equal counts, the one whose first message came earlier is listed first; a poster left out with as many messages as a listed one first posted after that listed poster |
| Stats.LikedTable | utils.py:88-89 | the likes table pairs each message, in order, with its like count |
| Stats.TopLiked | utils.py:96-99 | the first 10 of the stably sorted likes table: min(10, n) entries by descending likes, all taken from the table; an entry left out has no more likes than any kept; entries with equal likes keep their order |
| Stats.MostLiked | utils.py:96-99 | `most_liked`: min(10, n) messages by descending like count, all from the input; a message left out has no more likes than any kept; ties keep input order |
| Stats.HourRowsEntries | utils.py:100 | the histogram rows list hours in strictly ascending order, each with its count |
| Stats.HourRowsComplete | utils.py:100 | every hour in the histogram has a row |
| Stats.SumHourRows | utils.py:90-100 | the row counts add up to the number of messages with an hour |
| Stats.HourHist | utils.py:90-100 | `hour_hist`: rows for hours 0..23 in strictly ascending order, each with the exact (positive) number of messages in that hour; every hour with a message has a row (`HasRow`); the counts add up to the number of messages whose timestamp parses |
| Text.Strip | main.py:363 | `strip()` returns a result with no leading or trailing whitespace: the slice of the input that starts where `lstrip()` stops |
| Text.StripDrops | main.py:363 | `strip()` returns a contiguous slice of the input, and everything it removed is whitespace |
| Text.StripOfStripped | main.py:363 | stripping a stripped string changes nothing |
| Text.Split | main.py:363 | `split(sep)` gives at least one piece; no piece contains the separator; joining the pieces with the separator gives the input back |
| Text.SplitJoin | main.py:363 | splitting a join of at least one separator-free piece gives the pieces back |
| Text.IndexOf | main.py:365 | `split("=", 1)` cuts at the first `=` |
| Text.ParseInt | utils.py:91 | `int()` of a string: optional surrounding whitespace, an optional sign and decimal digits; Text.ParseIntToString states the round trip |
| Text.Contains | groupme_api.py:306 | Python's `q in text` for strings: `q` occurs at some position of `text`; Text.ContainsEmpty states the empty case |
| Text.Lower | groupme_api.py:298 | `lower()` keeps the length and lower-cases each (ASCII) letter in place |
| Text.ContainsEmpty | groupme_api.py:306 | the empty string occurs in every text |
| Text.Replace | webapp.py:365 | `replace(a, b)` keeps the length and changes exactly the occurrences of `a` to `b` |
| Text.ReplaceRemoves | webapp.py:365 | after `replace(a, b)` with `a != b` no `a` is left |
| Text.ParseIntToString | utils.py:91 | `int()` of the decimal rendering of an integer gives that integer back |
| Web.BulkIdsClean | webapp.py:365 | every id parsed from the bulk form is non-empty, stripped, and free of commas and line breaks |
| Web.ParseBulkIds | webapp.py:365 | the ids of a bulk form: `\r` and `,` become newlines, split on newlines, stripped, empty ones dropped; Web.BulkIdsClean and Web.BulkIdsJoin characterise it |
| Web.BulkIdsJoin | webapp.py:365 | ids joined by commas or newlines are parsed back into exactly those ids, in order |
| Web.BulkIdsLines | webapp.py:365 | after the two replaces, comma and newline separators both become newlines |
| Web.BulkPayload | webapp.py:366 | the bulk payload has one item per id, in order, each `{"conversation_id": ..., "message_id": ...}` |
| Web.BulkFromForm | webapp.py:361-370 | for a non-empty conversation id the bulk call likes (unlikes) each parsed id once, in order; with an empty conversation id no call is made and every item is reported as an error |
| Web.FormFlagCases | webapp.py:262 | the flag test ignores case, and an empty flag is never true |
| Web.FormFlag | webapp.py:262 | the flag rule: the lower-cased value is one of 1, true, yes, on; Web.FormFlagCases states its properties |
| Web.FormFlagUpper | webapp.py:262-264 | "TRUE", "YES" and "ON" are accepted as true |
| Web.GroupUpdate | webapp.py:256-268 | each keyword is present exactly when its form field is non-empty; text fields are passed as is and flags as the truth of the case-insensitive test for 1/true/yes/on; `update_group` is called exactly when some field is non-empty |
| Web.UpdateBodyOfKwargs | webapp.py:268 | the request body that `update_group` builds from the form's keywords is exactly those keywords |
| Web.AddMemberFields | webapp.py:125 | the member has exactly the non-empty ones of nickname, user_id, phone_number and email, and no empty value |
| Web.AddMemberCall | webapp.py:125-127 | `add_members` is called, with that one member, exactly when some field is non-empty |
| Web.DmView | webapp.py:172-179 | the view shows the messages oldest first and finds the other party's name as `OtherName` defines it |
| Web.FromOther | webapp.py:176 | the rule for a message from the other party: `str(sender_id)` differs from the user id and the name is truthy |
| Web.OtherName | webapp.py:172-178 | the name on the first message from the other party, or None; Web.OtherNameSpec characterises it |
| Web.OtherNameSpec | webapp.py:172-178 | the name is None exactly when no message is from another sender with a truthy name; otherwise it is the name on the first such message |
| Web.MeIdShapes | webapp.py:416-423 | the user id can come from `me["id"]`, or `me["response"]["id"]` when `me` has no `id`, or `me[0]["id"]`; it is `str()` of that id |
| Web.MeId | webapp.py:416-423 | the user id of the `/me` reply: `str()` of its `id` when the key is present, else of `response.id` when `response` is an object with that key, else of the first list element's `id`; otherwise none |
| Web.WatchStart | webapp.py:411-436 | a missing or empty `GROUPME_TOKEN` exits first with `build_client_from_env`'s SystemExit (groupme_api.py:483-485); then a missing or empty user id fails with "Unexpected /me response shape"; then a handshake reply that is neither a list nor an object fails with the AttributeError text of `resp.get` (utils.py:33-40); otherwise the watch subscribes to `["/user/<id>"]` with the reply's client id |
| Web.WatchStream | webapp.py:411-436 | the stream exits with no event exactly when the token is missing or empty; a reported failure gives exactly one error event; otherwise there is one data event per payload that watch_group yields, in order |
| Web.WatchFailsOnce | webapp.py:424-436 | after the error event nothing more is sent, whatever frames arrive |
| Web.WatchStreamAppend | webapp.py:432-434 | events are produced frame by frame: later frames only append events |
| Web.NeverMissingToken | webapp.py:413-430 | the "Missing token" event is never sent: an empty token has already exited in `build_client_from_env` |

## Left out

- HTTP transport (`_request`, sessions, timeouts, status codes, `GroupMeAPIError`) is not modelled. A request is a value in the request log and its answer comes from `pages`.
- The websocket connection, its `send`/`recv` and the acknowledgement reads are left out because they are I/O. The listen loop runs forever in the source; the model covers any finite prefix of the frames received.
- `json.loads`/`json.dumps`, URL encoding and the exact SSE text framing are left out. Frames are already-decoded JSON values and an SSE event is a datatype.
- Routes, templates, Rich output and Typer options are UI plumbing and are not modelled. Of `build_client_from_env`, only its token check is modelled, where the watch stream calls it.
- The other REST wrappers (`get_group`, `list_chats`, member and like endpoints and the rest) are one-line calls on `_request` and are not modelled.
- `_format_ts` and the attachment note in `read` are not modelled: a row keeps the raw `created_at` and text.
- The `list_dms` columns other than the snippet are not modelled.
- Web.WatchStream: of the exceptions the stream's catch-all `except Exception` reports, only the AttributeError of a handshake reply that is neither a list nor an object is modelled. The others come from the HTTP call to `/me` and the websocket, which are not modelled.
- Python dictionary insertion order is not modelled for request bodies, parameters and keyword arguments. They are maps, and a map has no order. The poster counter does keep first-insertion order, because `most_common` depends on it.
- Paging.LatestFrom: reading `messages[-1]["id"]` (groupme_api.py:208, and :270 for direct messages) is the total function `idOf`. The `KeyError` the source raises when the last item has no `id`, and the `TypeError` when it is not a dict, are not modelled; the model goes on with `idOf`'s value as the cursor. This covers Paging.FetchLatest and Paging.Latest.
- Paging.ExportFrom: reading `messages[-1]["id"]` (utils.py:75) is the total function `idOf`. The `KeyError` of a last item without `id`, and the `TypeError` of one that is not a dict, are not modelled; the model goes on with `idOf`'s value as the cursor. This covers Paging.ExportGroupMessages.
- Paging.SearchFrom: reading `msgs[-1]["id"]` (groupme_api.py:308) is the total function `idOf`. The `KeyError` of a last item without `id`, and the `TypeError` of one that is not a dict, are not modelled; the model goes on with `idOf`'s value as the cursor. This covers Paging.SearchDirectMessages and Paging.Search.
- Paging.ExportGroupMessages: the source loops forever when every page it gets is full. The model's server has only finitely many pages, so that case is not representable.
- Paging.SearchDirectMessages: `textOf` stands for `(m.get("text") or "")` and is total, so the AttributeError the source raises from `.lower()` on a truthy text that is not a string is not modelled. That error would end the whole search.
- Paging.ListAllGroups: the source loops forever when the server never returns an empty page. The model's server has only finitely many pages, so that case is not representable.
- Text.Lower: only ASCII letters are lower-cased. Python's Unicode case mapping is not modelled.
- Stats.ToInt: `int()` of a string accepts optional surrounding whitespace, an optional sign and decimal digits. Underscores, non-ASCII digits and floats (`int(1.5)`) are not modelled.
- Json.PyStr: `str()` of a list or an object renders as a placeholder instead of Python's `repr`. Only scalar ids are compared with it.
- Stats.HourOf: its contract gives only the 0..23 range. How hours are bucketed is stated by Stats.FoldHist and Stats.HourHist through the definition of the hour.
