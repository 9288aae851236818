# Content fetcher core, modelled in Dafny

This project models `ContentFetcher`, the core of a Telegram bot. The bot copies a range of messages from a channel, including one where forwarding is disabled, into a destination chat. The model has four parts.

- **Link parsing** (`Links`). `parse_telegram_link` tries four patterns in list order. Each pattern is `re.search`ed, so it matches at the leftmost position where it fits anywhere in the text. A `t.me/c/<d1>/<d2>` link names chat `-100<d1>`. A `t.me/<word>/<d>` link names the chat `<word>`. The module also covers the `-100` test in `get_chat_id_from_link`.
- **Range fetch** (`RangeFetch`, `MessageOrder`, `StableHistory`). `fetch_messages_range` works in four stages:
  - it validates the two links (two `ValueError`s);
  - it walks the chat history backwards, 100 messages per request, keeping the messages inside `[min_id, max_id]`; the walk starts at `max_id`, as written, and `CorrectedFetchSpec` is the same fetch started at `max_id + 1` (see Findings);
  - it restarts from scratch after a FloodWait;
  - it sorts the result by id.

  The walk is the method `WalkHistory`. Its inner loop over a page is the method `ScanPageLoop`. The restart loop is the method `Restarting`. Each method is proved equal to a recursive specification function, and the properties are proved about those functions. `StableHistory` instantiates the history with a fixed, newest-first list of messages, and proves what the fetch then returns.
- **Batch sending** (`BatchSend`). `send_message_batch` uses nested loops over chunks and items. It posts a progress notice per chunk and copies each message with the per-item FloodWait retry and text-only fallback. A closing summary ends a batch that ran through; when an exception escapes, a single error notice takes its place. The method `SendMessageBatch` (with `SendChunk` for the inner loop) is proved equal to the function `SendBatch`. The counting, the per-item policy, the chunk structure, the coverage of every message and the error path are proved about `SendBatch` for any client.
- **Command handling** (`Commands`). `process_command` tests the prefixes `/batch`, `/single` and `/help` in that order and splits the text on whitespace. It checks the argument count, and then announces, fetches and sends; or fetches and copies a single message. Every exception becomes an error reply. The method `ProcessCommand` is proved equal to the function `Run`, and the method `BatchCommand`, the `/batch` path, to the function `RunBatch`.

The Telegram client is replaced by oracles that are parameters of the model:
- `History` answers `get_chat_history(chat, limit=100, offset_id)` with a page, a FloodWait or another exception. The answer may depend on the attempt number.
- `Replies` answers the k-th client call of a batch or command: `Ok`, `Flood(x)` or `Fail`.
- A `lookup` function stands for `get_messages`, and a `resolve` function for `get_chat`.

The client's promise about pages is the predicate `ValidHistory`: at most 100 messages, newest first, and all strictly older than the offset. Observable behaviour is a trace of events: requests, pauses, and client calls with their replies.

## Model

| member | source | states |
|---|---|---|
| Links.ParseLinkCases | content_fetcher.py:18-43 | The first pattern that matches decides. If the channel pattern matches, the result is `("-100" + digits, int(msgdigits))` from its leftmost match. Otherwise, if the handle pattern matches, the result is `(word, int(msgdigits))`. Otherwise the result is `(None, None)`. |
| Links.HttpsNeverDecides | content_fetcher.py:18-43 | Parsing with all four patterns gives the same result as parsing with the first two alone, so neither `https://` pattern ever decides. |
| Links.SecureNeedsPlain | content_fetcher.py:20-26 | No `https://` pattern matches a text unless a plain pattern matches it too. |
| Links.ParseLinkFails | content_fetcher.py:29-43 | The parse fails exactly when neither the channel pattern nor the handle pattern matches at any position. |
| Links.ChannelLinkParses | content_fetcher.py:20-36 | Any dot-free text followed by `t.me/c/<d1>/<d2>` parses to chat `-100<d1>` and message `int(<d2>)`. |
| Links.HandleLinkParses | content_fetcher.py:22-41 | Any dot-free text followed by `t.me/<word>/<d>` parses to `(word, int(d))`. This includes `t.me/c/123`, which parses as chat `c`, message 123. |
| Links.HandleBlocksChannel | content_fetcher.py:20-22 | A handle link's tail can never match the channel pattern at the same position. |
| Links.ParsedChatShape | content_fetcher.py:34-39 | A parsed chat is either `-100` followed by digits, or a non-empty word not starting with `-`. It is therefore never empty, so the `not chat_identifier` guards never fire. |
| Links.ZeroIdOnlyFromZeros | content_fetcher.py:35-40 | `int()` of a digit group is 0, the falsy id the callers reject, exactly when every digit is `0`. |
| Links.DigitsValueConcat | content_fetcher.py:52-53 | The decimal value of two concatenated digit strings is the first value shifted by the second's length, plus the second value. |
| Links.RunLength | content_fetcher.py:20-26 | A greedy `\d+` or `\w+` run stays in the text, covers only characters of its class, and stops at the end of the text or at a character outside the class. |
| Links.MatchAt | content_fetcher.py:20-26 | A match at a position consists of the pattern's literal, a non-empty first group of its class, and a non-empty digit group. |
| Links.Search | content_fetcher.py:30 | `re.search` returns the leftmost matching position: no position before it matches, and if nothing is returned, no position matches. |
| Links.ChatIdFromLink | content_fetcher.py:45-60 | An unparsable link gives `None`. A `-100…` chat gives `int()` of the identifier. Any other chat gives whatever `get_chat` resolves it to, with failure as `None`. |
| Links.ChannelChatId | content_fetcher.py:52-53 | For a channel link, the chat id is `-(100·10^len(d) + int(d))`, so it is at most -100. |
| MessageOrder.InsertSorts | content_fetcher.py:131 | Inserting a message into an ascending list keeps it ascending and adds exactly that message. |
| MessageOrder.SortByIdSorts | content_fetcher.py:131 | `sort(key=id)` returns an ascending permutation of its input. |
| MessageOrder.SortDescendingIsReverse | content_fetcher.py:131 | Sorting a strictly newest-first list reverses it, so the result is strictly ascending. |
| RangeFetch.ReplyValid | content_fetcher.py:102-106 | Every page a valid client returns holds at most 100 messages, newest first, all older than the offset. |
| RangeFetch.CheckLinks | content_fetcher.py:81-92 | A window that passes validation is non-empty and starts above 0. |
| RangeFetch.CheckLinksCases | content_fetcher.py:81-92 | The first `ValueError` is raised exactly when a link fails to parse or names message 0. The second is raised exactly when both links are valid but name different chats. Otherwise the window runs from min to max of the two ids. |
| RangeFetch.ChannelAndHandleDiffer | content_fetcher.py:87-88 | A `t.me/c/…` link and a handle link are always "different chats", because the chats are compared as strings. |
| RangeFetch.ScanPageLoop | content_fetcher.py:111-116 | The inner loop keeps exactly what the page scan specifies. |
| RangeFetch.ScanPageKeeps | content_fetcher.py:111-116 | The scan keeps only messages with `min_id <= id <= max_id`, each taken from the page at most once. |
| RangeFetch.ScanPageOrder | content_fetcher.py:111-116 | The kept messages stay in the page's newest-first order. |
| RangeFetch.ScanPageIsWindow | content_fetcher.py:111-116 | On a newest-first page, skipping ids above the window and stopping at the first id below it keeps exactly the page's messages inside the window. |
| RangeFetch.WindowOfOlder | content_fetcher.py:115-116 | Messages all older than `min_id` contribute nothing. |
| RangeFetch.PaginateStep | content_fetcher.py:108-128 | A non-empty page that does not reach `min_id` moves the offset to its oldest id, which is strictly smaller. The walk then continues with one request and a one-second pause. |
| RangeFetch.WalkHistory | content_fetcher.py:96-128 | The `while True` loop, started from `current_offset_id = max_id`, produces exactly the specified walk: the kept messages, and the request and pause events. |
| RangeFetch.WalkCollects | content_fetcher.py:97-125 | A completed walk gathers messages strictly newest first, all inside the window and all older than the starting offset. |
| RangeFetch.KeptFromPage | content_fetcher.py:111-125 | What one page contributes lies inside the window, and is no older than the page's last message, which becomes the next offset. |
| RangeFetch.WalkRequests | content_fetcher.py:97-125 | The walk's first request is at its starting offset, and the offsets of successive requests strictly decrease. |
| RangeFetch.LastRequest | content_fetcher.py:108-122 | An empty page, a FloodWait, another exception or a page reaching `min_id` ends the walk after that request. |
| RangeFetch.AttemptOnce | content_fetcher.py:97-142 | For any starting offset: a completed walk is sorted and returned, another exception returns `[]`, and a FloodWait of `x` pauses `x + 5` seconds and starts the walk again from the same offset. |
| RangeFetch.RestartStep | content_fetcher.py:97-142 | One turn of the restart loop, for any starting offset: after the events already recorded, a completed walk ends the fetch with its sorted messages, another exception ends it with `[]`, and a FloodWait of `x` appends the walk's events and a pause of `x + 5` before the next attempt from the same offset. |
| RangeFetch.Restarting | content_fetcher.py:97-142 | The restart loop, every attempt walking from `max_id`, produces exactly the specified sequence of attempts and events. |
| RangeFetch.FetchMessagesRange | content_fetcher.py:79-142 | The method produces exactly the fetch as written: validation first, then the attempts, each walking from `max_id`. |
| RangeFetch.AttemptsFetch | content_fetcher.py:97-142 | For any starting offset, every fetched result is strictly ascending by id, with `min_id <= id <= max_id` and every id below the starting offset. |
| RangeFetch.FetchResultShape | content_fetcher.py:81-131 | A `ValueError` is raised exactly when validation fails, and then with no history request. A result is strictly ascending with `min_id <= id < max_id`, because the walk starts at `max_id`. |
| RangeFetch.CorrectedFetchShape | content_fetcher.py:81-131 | With the walk started at `max_id + 1`, a `ValueError` is still raised exactly when validation fails, and a result is strictly ascending inside `[min_id, max_id]`. |
| RangeFetch.SameLinkFindsNothing | content_fetcher.py:91-113 | As written, a fetch whose two links name the same message returns `[]`, whatever the history holds. |
| RangeFetch.PaginateAgree | content_fetcher.py:99-128 | A walk depends only on the replies to its own attempt's requests: two histories that agree on them give the same walk. |
| RangeFetch.SwapLinks | content_fetcher.py:91-92 | Swapping the start and end links gives the same fetch. |
| RangeFetch.ThenThen | content_fetcher.py:118 | Extending the collected list page by page is associative: the pages' contributions are concatenated in request order. |
| RangeFetch.AfterAfter | content_fetcher.py:136-139 | Events of successive attempts concatenate in order. |
| StableHistory.FromHistoryValid | content_fetcher.py:102-106 | Serving the newest 100 messages older than the offset from a newest-first history keeps the client's promise. |
| StableHistory.OlderThanTwice | content_fetcher.py:105-125 | Filtering a history below one offset and then below a smaller offset is the same as filtering once below the smaller offset. |
| StableHistory.WindowStep | content_fetcher.py:111-125 | The window of what lies below the offset is what one page keeps, followed by the window below the page's oldest id. |
| StableHistory.LastPage | content_fetcher.py:111-122 | A page that reaches `min_id` keeps the whole rest of the window. |
| StableHistory.StableWalk | content_fetcher.py:97-128 | Over a fixed history, the walk collects exactly the in-window messages older than the starting offset, newest first. |
| StableHistory.SortedWindowMember | content_fetcher.py:113-131 | Sorting the in-window messages below a starting offset keeps exactly the history's messages with `min_id <= id <= max_id` below that offset. |
| StableHistory.StableAttempt | content_fetcher.py:97-134 | Over a fixed history, any attempt from any starting offset completes and returns the in-window messages below that offset, sorted strictly ascending. |
| StableHistory.StableAttempts | content_fetcher.py:97-134 | Over a fixed history, the attempts from any index and any starting offset return a strictly ascending list holding exactly the history's messages with `min_id <= id <= max_id` below that offset. |
| StableHistory.StableFetch | content_fetcher.py:79-134 | Over a fixed history, a valid fetch as written returns a strictly ascending list containing exactly the history's messages with `min_id <= id < max_id`. |
| StableHistory.CorrectedStableFetch | content_fetcher.py:79-134 | Over a fixed history, the corrected fetch returns a strictly ascending list containing exactly the history's messages with `min_id <= id <= max_id`. |
| StableHistory.UpperEndMissed | content_fetcher.py:97-113 | Over a fixed history that holds message `max_id`, the fetch as written returns without it, although the filter admits it. The corrected fetch returns it. |
| StableHistory.FloodOnceValid | content_fetcher.py:102-106 | A fixed history that answers one request of the first attempt with a FloodWait keeps the client's promise. |
| StableHistory.FloodedWalk | content_fetcher.py:99-128 | In the first attempt over that history, the walk either stops at the FloodWait or collects exactly what the unthrottled walk collects. |
| StableHistory.RestartAfterFlood | content_fetcher.py:97-140 | A FloodWait met anywhere in the first attempt changes nothing in what the attempts return, when a restart is left: the restart walks again from the same offset over the same history. |
| StableHistory.RestartedFetch | content_fetcher.py:79-140 | The fetch as written, throttled once in its first attempt, returns what the unthrottled fetch returns. |
| BatchSend.SendChunk | content_fetcher.py:166-184 | The inner `for message in batch` loop produces exactly the specified items. |
| BatchSend.SendMessageBatch | content_fetcher.py:144-205 | The nested loops, the summary and the error path produce exactly the specified batch: the result and the trace. |
| BatchSend.ItemCounted | content_fetcher.py:166-184 | One item adds to `sent_count` only for a successful copy, on the first try or on the one retry after a FloodWait. The text-only substitute does not count. |
| BatchSend.ItemsCounted | content_fetcher.py:166-184 | Across a chunk, `sent_count` stays equal to the number of successful copies, each message copied successfully at most once. |
| BatchSend.ChunksCounted | content_fetcher.py:154-188 | The same holds across all chunks, whether or not an exception ends them. |
| BatchSend.SentIsDelivered | content_fetcher.py:147-205 | `sent_count` is the number of messages copied successfully and never exceeds `len(messages)`. An empty list returns `False` without a call. A `True` batch ends with the summary reporting `sent_count/n`. Any other non-empty batch ends with the error notice reporting `sent_count`. |
| BatchSend.FailureStopsBatch | content_fetcher.py:153-205 | When a non-empty batch does not return `True`, the error notice directly follows the failed client call, so nothing further is attempted. The batch returns `False` exactly when the error notice goes through, and raises when it fails. The call that failed is not a first copy. Every failed call before it is a first copy, handled in place. In a batch that returns `True`, every failed call is a first copy. |
| BatchSend.ChunkCountBound | content_fetcher.py:150-154 | Chunk `k` starts inside the list exactly when `k < ceil(n / batch_size)`. |
| BatchSend.NoticeOfChunk | content_fetcher.py:155-163 | The notice at offset `k·batch_size` states chunk number `k + 1`, the total `ceil(n / batch_size)`, and the chunk's length. |
| BatchSend.ItemsAllOk | content_fetcher.py:166-172 | When the client accepts everything, every message of a chunk is copied once, in order, and counted. |
| BatchSend.ChunkAllOk | content_fetcher.py:154-188 | When the client accepts everything, a chunk adds its notice, its copies and, unless it is the last chunk, the inter-chunk pause. |
| BatchSend.ChunksAllOk | content_fetcher.py:154-188 | When the client accepts everything, the chunks run to completion with the intended outline and every message copied in order. |
| BatchSend.AcceptedRun | content_fetcher.py:147-196 | When every client call succeeds, the batch returns `True`, with `sent_count = n`, copies of messages 0..n-1 in order, and the outline notice 1, pause, …, notice N. |
| BatchSend.PlanShape | content_fetcher.py:150-188 | The intended outline has `2N - 1` entries: notice `k+1` at each even position and the pause at each odd position. |
| BatchSend.AllAccepted | content_fetcher.py:147-196 | When every client call succeeds: the result is `True` and `sent_count = n`. Messages are copied in input order, once each. There are exactly N = `ceil(n / batch_size)` notices, numbered 1..N. The inter-chunk delay occurs only between chunks, N-1 times. |
| BatchSend.ItemOutline | content_fetcher.py:166-184 | An item's copies, retries, text-only sends and pauses leave the outline of notices and inter-chunk pauses unchanged. |
| BatchSend.OutlineSkips | content_fetcher.py:166-184 | Events that are neither notices nor inter-chunk pauses do not change the outline. |
| BatchSend.ItemsOutline | content_fetcher.py:166-184 | The same holds for a chunk's items, whether or not one of them raises. |
| BatchSend.ChunkItemsOutline | content_fetcher.py:154-184 | A chunk's notice that goes through, then its items, extend the outline by exactly that notice. |
| BatchSend.ChunkOutline | content_fetcher.py:154-188 | A chunk that goes through adds its notice and, unless it is the last, the inter-chunk pause to the outline, whatever happened to its items. |
| BatchSend.OutlineHandOff | content_fetcher.py:154-188 | A chunk either ends the batch or hands over to the next chunk with the outline so far. |
| BatchSend.ChunksOutline | content_fetcher.py:154-188 | Chunks that all go through leave the intended outline: notice 1, pause, …, notice N. |
| BatchSend.CompletedPlan | content_fetcher.py:147-196 | Whatever the client answers, a batch that returns `True` has the intended outline. |
| BatchSend.CompletedOutline | content_fetcher.py:147-196 | Whatever the client answers, a batch that returns `True` has exactly N = `ceil(n / batch_size)` notices, numbered 1..N and each stating its chunk's size, with the inter-chunk pause between them N-1 times. Retries and text-only sends do not change this. |
| BatchSend.ItemAppends | content_fetcher.py:166-184 | One item appends events that follow the per-item policy, copy only that message, hold no notice or inter-chunk pause, and do not end in a backoff. They hold exactly one first copy, of that message. Every failed call in them is that first copy, except the last call when the item raises, which is not a first copy. |
| BatchSend.PolicyConcat | content_fetcher.py:166-184 | Two traces that each follow the per-item policy still do so joined, when the first does not end in a backoff and the second does not start with a text-only send. |
| BatchSend.InOrderConcat | content_fetcher.py:166-184 | Joining a trace that copies messages below `mid` with one that copies messages from `mid` on keeps the copies in input order. |
| BatchSend.OrderlyAppend | content_fetcher.py:155-200 | A notice, an inter-chunk pause, the summary or the error notice keeps the trace orderly. |
| BatchSend.ItemOrderly | content_fetcher.py:166-184 | After one more item, the trace still follows the per-item policy and copies in input order. |
| BatchSend.ItemsOrderly | content_fetcher.py:166-184 | The same holds across a chunk's items. |
| BatchSend.ChunkOrderly | content_fetcher.py:154-188 | One chunk keeps the trace orderly, whether it ends the batch or hands over to the next chunk. |
| BatchSend.ChunksOrderly | content_fetcher.py:154-188 | The same holds across all chunks. |
| BatchSend.BatchFollowsPolicy | content_fetcher.py:147-205 | Whatever the client answers, the batch's trace follows the per-item policy. A first copy that succeeds is followed by the half-second pause. One that meets a FloodWait of `x` is followed by a pause of `x + 2` seconds and exactly one more copy of the same message. One that fails otherwise is followed by the text-only send of the message's text exactly when it has text or a caption. Messages are copied in input order. |
| BatchSend.FirstCopiesConcat | content_fetcher.py:166-184 | The messages attempted in a joined trace are those of the first part followed by those of the second, when the first part does not end in a backoff. |
| BatchSend.OkAttempt | content_fetcher.py:166-172 | A successful copy, then the half-second pause, attempts that one message, and nothing in it fails. |
| BatchSend.FloodAttempt | content_fetcher.py:173-178 | A copy that meets a FloodWait, the backoff and the retry attempt the message once. The retry is not a first copy. Only the first copy failed, unless the retry fails as well. |
| BatchSend.TextAttempt | content_fetcher.py:179-184 | A failed copy followed by the text-only send attempts the message once. Only the first copy failed, unless the text-only send fails as well, and that send is not a first copy. |
| BatchSend.FailAttempt | content_fetcher.py:179-184 | A failed copy of a message without text attempts the message once, and its failure is handled. |
| BatchSend.TolerantConcat | content_fetcher.py:153-188 | Joining a trace whose only failures are first copies with one whose first `m` events have only such failures gives a trace whose only failures up to that point are first copies. |
| BatchSend.TolerantExtend | content_fetcher.py:153-205 | Appending events leaves the earlier events' failures as they were. |
| BatchSend.CoveredAppend | content_fetcher.py:158-196 | A notice, an inter-chunk pause or the summary adds no attempted message. If it fails, it stops the trace. If it goes through, the trace stays covered. |
| BatchSend.StoppedThenNotice | content_fetcher.py:198-204 | The error notice after a stopped trace leaves the stopping call second to last, with only first copies failing before it. |
| BatchSend.ItemCovers | content_fetcher.py:166-184 | After one more item, either messages `0..j` have each been attempted once, in order, with only first copies failing, or the item raised at a call that is not a first copy. |
| BatchSend.ItemsCover | content_fetcher.py:166-184 | The same holds across a chunk's items. |
| BatchSend.ChunkCovers | content_fetcher.py:154-188 | A chunk at offset `i` that goes through extends the attempted messages, in order, from `0..i-1` to `0..end-1`, where `end = min(i + batch_size, n)`. Otherwise it stops the batch at a call that is not a first copy. |
| BatchSend.ChunksCover | content_fetcher.py:154-188 | The same holds across all chunks. |
| BatchSend.BatchCovers | content_fetcher.py:147-205 | Whatever the client answers, a batch that returns `True` attempted messages `0..n-1`, once each and in order, and only first copies failed. In any other non-empty batch, the call before the error notice is not a first copy, and only first copies failed before it. |
| BatchSend.CompletedCoversAll | content_fetcher.py:147-196 | Whatever the client answers, a batch that returns `True` attempted every message exactly once, in input order. No message is skipped after a FloodWait retry or a failed copy. |
| BatchSend.OkCopiesAppend | content_fetcher.py:168-178 | A new event adds to the list of successful copies only when it is a successful copy. |
| Commands.SplitWords | content_fetcher.py:212 | Every piece `split()` returns is non-empty and holds no whitespace. |
| Commands.SplitJoin | content_fetcher.py:212 | Splitting words joined by single spaces returns the words. |
| Commands.WordBounds | content_fetcher.py:212 | A word's extent stops at the first whitespace character. |
| Commands.DispatchOrder | content_fetcher.py:210-272 | The prefixes are tested in the order `/batch`, `/single`, `/help`, then unknown. A command with the wrong number of pieces is a misuse. The links are the second and third pieces of the split. |
| Commands.ArgumentsAreWords | content_fetcher.py:212-248 | The links handed on are whitespace-free words. |
| Commands.BatchRoundTrip | content_fetcher.py:210-216 | `/batch <a> <b>` with two words yields exactly those two links. |
| Commands.SingleRoundTrip | content_fetcher.py:242-248 | `/single <link>` with one word yields exactly that link. |
| Commands.SingleRequestCases | content_fetcher.py:62-66 | `fetch_single_message` asks the client exactly when the link parses to a message id above 0, and then with the parsed chat and id. |
| Commands.SingleReplies | content_fetcher.py:242-275 | For a well-formed `/single <link>`, as `RunSingle` with `fetch_single_message`: "Message sent" exactly when the message is found and its copy goes through. The error reply exactly when it is found and the copy raises. "Unable to fetch message" exactly when the lookup finds nothing or the link has no positive message id. Such a link makes no client call. Otherwise the lookup, with the parsed chat and id, comes first, and the copy follows only a found message. |
| Commands.BatchCommand | content_fetcher.py:210-240 | The `/batch` path produces exactly the specified reply and events: announce, fetch, send. |
| Commands.ProcessCommand | content_fetcher.py:207-275 | `process_command` produces exactly the specified reply and events for every text. |
| Commands.ArgumentErrors | content_fetcher.py:210-272 | A usage reply is given exactly when the prefix matches and the piece count is wrong. A usage reply, help and the unknown-command reply make no client call. |
| Commands.BatchResponses | content_fetcher.py:219-275 | A well-formed `/batch` replies with one of its seven answers. A failed announcement becomes the error reply, with nothing else attempted. |
| Commands.EmptyFetchSendsNothing | content_fetcher.py:227-230 | An empty fetch replies "No messages found" and sends nothing. |
| Commands.SameLinkReply | content_fetcher.py:216-230 | As written, `/batch` with the same valid link twice sends nothing: the reply is "No messages found", or, only in the model, the give-up reply when the bound on restarts runs out. |
| Commands.RejectedLinksReported | content_fetcher.py:227-275 | A `ValueError` from validation becomes the error reply, after the announcement and with no history request. |
| Commands.BatchReply | content_fetcher.py:227-275 | A non-empty fetch is sent with `batch_size=10, delay=3`. The reply is "completed" exactly when the batch returns `True`, "failed" exactly when it returns `False`, and the error reply exactly when it raises. The batch's last event is the summary or the error notice, and `sent_count <= n`. |

## Left out

- bot.py and config.py are not part of this model. They cover client construction, authorization, the event loop, startup notices and environment settings; the core never reads the settings.
- Logging, and the text of replies and notices. Replies are constructors of `Response`, and notices carry only their numbers.
- `asyncio.sleep` and all scheduling. Each sleep is a `Pause` or `Slept` event with its duration.
- Pyrogram itself. `get_chat_history`, `get_messages`, `get_chat`, `send_message` and `message.copy` are oracles given as parameters. Whether `offset_id` is exclusive is Pyrogram's behaviour; the model takes "older than the offset" as the client's promise.
- `destination_id` is not modelled; every call goes to the one destination.
- `\w` and `\d` are ASCII here. Python's Unicode classes also accept other letters and digits.
- `int()` is modelled on the strings this code gives it: digits with an optional leading minus. Underscores, signs and surrounding whitespace do not occur there.
- The FloodWait restart recurses without bound. `Attempts`, `Restarting`, `FetchMessagesRange` and `Run` take a `fuel` bound on the number of attempts. Running out gives `OutOfAttempts`, answered by `GaveUp`, which the code cannot return.
- `send_message_batch` with `batch_size < 1` is excluded by `requires size >= 1`. Python raises `ZeroDivisionError` for 0 and sends no chunk for a negative size. The only caller passes 10.
- `all_messages.sort(...)` is modelled as the pure function `SortById` over the collected list, not as an in-place update.
- A fetched message is an id with optional text and caption; its payload is not modelled.
- BatchSend.AllAccepted: states `sent_count = n` only for a client that accepts every call, because with any other client the code itself counts fewer: a text-only send or a failed copy is not counted. For any client, `CompletedCoversAll` states that every message is attempted once and in order, `CompletedOutline` states the outline, and `BatchFollowsPolicy` states the per-item policy.
- BatchSend.CompletedOutline: states the notices and pauses of a completed batch, and `CompletedCoversAll` the first copies, each over the whole trace. That chunk `k`'s first copies fall between notice `k+1` and the next pause is stated chunk by chunk, by `ChunkCovers` and `ChunkOutline`. No single formula over the final trace states it, since that needs a plan of positions with both kinds of event interleaved.
- RangeFetch.AttemptsFetch: says nothing about duplicates beyond what the client's strictly descending pages give. The code does no deduplication.

## Findings

| source | as written | input that shows it | evidently intended | confidence | as-written member | corrected member |
|---|---|---|---|---|---|---|
| content_fetcher.py:97-113 | The walk starts with `offset_id = max_id`, and a history request returns only messages older than the offset, so the message at `max_id` is never fetched. The filter on line 113 admits it. | `/batch t.me/news/100 t.me/news/150` over a history that holds message 150: messages 100..149 are returned and 150 is not. `/batch t.me/news/5 t.me/news/5` always replies "No messages found" (`Commands.SameLinkReply`). | The inclusive range `[min_id, max_id]`, obtained by starting from `max_id + 1`. This is what the filter states, along with the docstring "Fetch all messages between start and end links" (line 80) and the `/batch` help text (line 262). | medium, not executed; it rests on `offset_id` being exclusive, as the model's client promises | StableHistory.UpperEndMissed | StableHistory.CorrectedStableFetch |
