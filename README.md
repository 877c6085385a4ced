# Gmail tools and note extractors, modelled in Dafny

This project models the core of a course repository written in Python:

- The week3 Gmail MCP server. `GmailClient._retry_with_backoff` retries a remote call with exponential backoff. `list_messages` and `get_message` send their requests through it.
- The week3 tool layer `GmailMcpTools`:
  - `_combine_query` builds the search query.
  - `gmail_search_messages` pages through `messages.list`, drops duplicate ids, cuts the list to `max_results` and enriches the first ten results with their headers. It maps HTTP errors to error codes.
  - `gmail_get_message` fetches one message and builds its header dictionary. It walks the MIME tree for the plain-text and HTML bodies and maps errors to codes.
- The week2 rule-based action-item extractor. It takes bullet, keyword and checkbox lines, falls back to imperative sentences, and removes duplicates ignoring case.
- The week4 extractor. It yields action items with their `#tags`, with the tags removed from the text and whitespace collapsed. It also lists all tags.
- The week5 parsers: `!`/`todo:` lines, unique hashtags, and unchecked `- [ ] ` tasks.

The remote Gmail API is a scripted oracle, the way the repository's tests script a mock's `side_effect`. Call number `k` of an operation yields the `k`-th outcome of a script: a value, an `HttpError` (status and text), or any other exception. A call past the end of the script raises a non-HTTP exception. `time.sleep` becomes a log of delays. Base64url and UTF-8 decoding is a partial function `dec` passed in by the caller.

Python's string semantics are written out:

- `str.isspace` (also used by `\s`, `strip()` and `split()`) is the exact set of Unicode whitespace characters.
- `splitlines()` uses all of Python's line boundaries and counts `\r\n` as one.
- `re.findall`, `re.sub` and `re.split` are left-to-right scans that resume after each match.
- `s[:n]` with a negative `n` counts from the end.
- Truthiness of an optional string is "present and non-empty".

Modules, one per source file, plus shared ones:

- `Common`: Option, character classes, the `str` methods, splitting and joining, and `FilterMap`, a list comprehension with a condition.
- `Dedup`: the order-preserving "seen set" loop, which the source writes three times.
- `GmailClient`: `week3/server/gmail_client.py`.
- `MessageCodec` and `GmailTools`: `week3/server/tools.py`.
- `Hashtags`: the `#(\w+)` pattern shared by week4 and week5.
- `Week2Extract`, `Week4Extract` and `Week5Extract`: the three `extract.py` files.

Loops in the source are methods with loop invariants, proved equal to a specification function. The properties are stated and proved about those functions.

## Model

| member | source | states |
|---|---|---|
| GmailClient.Schedule | week3/server/gmail_client.py:66 | the delay list has one entry per retry, and entry `a` is `base * 2^a` |
| GmailClient.RetryContract | week3/server/gmail_client.py:31-82 | calls are between 1 and max_retries+1; the last call's outcome is returned or raised unchanged; every earlier call was a retryable HttpError (429 or 5xx); a retryable last outcome means retries ran out; the delays are `base*2^0 .. base*2^(calls-2)` |
| GmailClient.RetryFromContract | week3/server/gmail_client.py:46-78 | the same contract for the loop entered at a later attempt |
| GmailClient.RetryContractUnique | week3/server/gmail_client.py:31-82 | any run meeting the retry contract is the run of the retry loop, so the contract determines the behaviour |
| GmailClient.RetryWithBackoff | week3/server/gmail_client.py:46-82 | the `for attempt` loop returns the same outcome, call count and delays as the retry specification, with calls in 1..max_retries+1 |
| GmailClient.ImmediateSuccess | week3/server/gmail_client.py:46-48 | success on attempt k after k retryable failures returns that value after exactly k+1 calls |
| GmailClient.Unauthorized | week3/server/gmail_client.py:55-57 | a 401 on attempt k is raised on that attempt, with no later call and no sleep after it |
| GmailClient.NotRetried | week3/server/gmail_client.py:47-78 | a non-retryable status, a missing status or a non-HTTP exception ends the loop on that attempt without sleeping |
| GmailClient.Exhausted | week3/server/gmail_client.py:59-75 | when every attempt is retryable, there are max_retries+1 calls with a sleep before each retry, and the last error is raised |
| GmailClient.PageSize | week3/server/gmail_client.py:113 | the page size sent is `min(max_results, 500)` |
| GmailClient.ListMessages | week3/server/gmail_client.py:84-122 | every attempt sends user "me", the query, the size clamped to 500 and the token; the call is made 1 to 4 times, every call but the last raised a retryable error, the last call's outcome is returned or raised, a retryable last outcome means all 4 calls were made, and the sleeps are 1, 2, 4 seconds as far as needed |
| GmailClient.GetMessage | week3/server/gmail_client.py:124-161 | sends user "me", the id and the format, with the same promise: 1 to 4 calls, only retryable errors before the last, the last outcome returned, sleeps 1, 2, 4 seconds as far as needed |
| GmailClient.PersistentRateLimit | week3/server/gmail_client.py:59-66 | a persistent 429 on list_messages makes 4 calls and logs the delays [1, 2, 4] |
| GmailClient.PersistentServerError | week3/server/gmail_client.py:68-75 | a persistent 503 on get_message is retried exactly like a 429: 4 calls, delays [1, 2, 4] |
| GmailClient.RecoversAfterThreeRateLimits | week3/server/gmail_client.py:46-66 | three 429s and then a page return the page after 4 calls and delays [1, 2, 4] |
| GmailTools.LabelFilters | week3/server/tools.py:55-57 | one `label:L` filter per label, in order |
| GmailTools.CombineQuery | week3/server/tools.py:44-59 | the combined query is never empty; with no filters it is `in:anywhere` |
| GmailTools.CombineQueryContains | week3/server/tools.py:44-59 | the stripped base query, `newer_than:Nd` and every `label:L` occur in the combined query; there are no parts exactly when the query is blank and no filters are given |
| GmailTools.CombineQuerySplit | week3/server/tools.py:59 | when no filter contains a space, splitting the combined query on spaces gives back the list of parts |
| GmailTools.NewRefs | week3/server/tools.py:173-179 | every reference taken from a page has a non-empty id |
| GmailTools.NewRefsMembers | week3/server/tools.py:173-179 | the references of a page are exactly its entries with a truthy id, with `threadId` defaulting to "" |
| GmailTools.NewRefsAllFilled | week3/server/tools.py:173-179 | a page whose ids are all truthy contributes every entry, in order |
| GmailTools.RequestedPageSize | week3/server/tools.py:166 | the page size asked for is `2*max_results` when that is at most 500, and 500 otherwise |
| GmailTools.PySlicePrefix | week3/server/tools.py:184 | `s[:n]` is a prefix of `s` whose length follows Python's rule, including negative `n` |
| GmailTools.AddNewIds | week3/server/tools.py:173-180 | the inner loop extends the collected ids to the deduplicated references of all pages so far, and `seen_ids` stays equal to their id set |
| GmailTools.CollectMessageIds | week3/server/tools.py:155-212 | the page loop returns the result and requests of the pagination specification |
| GmailTools.PaginateContract | week3/server/tools.py:161-212 | for the page loop `Paginate`: 1 to 10 list calls; each sends the same query and size, the first with no token and later ones with the previous page's token; every call but the last returned a page with a truthy token and too few ids; the last call decides: its error, or the distinct ids read so far, cut to max_results |
| GmailTools.CollectedIds | week3/server/tools.py:172-185 | the collected ids are distinct and non-empty, each from a page read; there are at most max_results of them; unless the limit cut the list, every distinct id read is there |
| GmailTools.EnrichCount | week3/server/tools.py:224 | `min(10, n)` |
| GmailTools.EnrichResults | week3/server/tools.py:223-261 | one result per id, result `i` being `ItemAt` of id `i`; the first min(10,n) ids each make one metadata get call, in order |
| GmailTools.ItemAt | week3/server/tools.py:229-258 | a result keeps the id and thread of its reference, and every result from the eleventh on is the bare item |
| GmailTools.SearchError | week3/server/tools.py:192-212 | 401 maps to authentication_error, 429 to rate_limited, and every other status to api_error with the error text |
| GmailTools.Search | week3/server/tools.py:192-277 | an error reply is authentication_error, rate_limited or api_error, never not_found or unknown_error; total_count is the number of results; the no-results hint comes exactly with an empty result list |
| GmailTools.SearchMessages | week3/server/tools.py:126-277 | the tool's reply and list requests equal those of `Search` and `Paginate`; with results, it makes one metadata get call for each of the first min(10, n) results, in order, with that result's id; with no results or an error, no get call |
| GmailTools.SearchReplyContract | week3/server/tools.py:214-277 | total_count equals the number of results; the hint comes exactly with empty results; result ids are distinct and non-empty, at most max_results of them; results past the tenth carry no metadata |
| GmailTools.SearchErrors | week3/server/tools.py:192-212 | the reply is an error code exactly when the last list call raised an HttpError, even after earlier pages succeeded; a non-HTTP exception escapes |
| GmailTools.RateLimitedSearch | week3/server/tools.py:201-206 | a persistently rate-limited listing, after the client's 4 attempts, is reported as rate_limited |
| GmailTools.DuplicateRefsExample | week3/server/tools.py:172-180 | ids 1,2,3 then 2,3,4 deduplicate to 1,2,3,4 |
| GmailTools.DuplicatesAcrossPages | week3/server/tools.py:161-190 | two pages (1,2,3 with a token, then 2,3,4) give four references after two calls, the second call sending the token |
| GmailTools.GetError | week3/server/tools.py:333-355 | 404, or 400 with "Invalid id", maps to not_found; 401 to authentication_error; 429 to rate_limited; anything else to api_error |
| GmailTools.BodyKey | week3/server/tools.py:324-329 | a body key is present exactly when the decoded body is truthy, and then holds it |
| GmailTools.GetMessageReply | week3/server/tools.py:300-360 | the reply is a message exactly when the client call returned; an error reply is unknown_error exactly when a non-HTTP exception was raised; an HttpError is not_found exactly for a 404 or an "Invalid id" 400; a message keeps the id and snippet of the response, "" when absent |
| GmailTools.GetMessageTool | week3/server/tools.py:279-360 | the method returns the reply of the get_message specification and sends ("me", id, format) |
| GmailTools.MessageReplyContract | week3/server/tools.py:310-329 | the header dict has one key per header name, each holding the value of its last occurrence; a non-full format gives no bodies; in full format a body key is present exactly when the walk found a non-empty body, and that body is the decoded data of a reached part of its type |
| GmailTools.NotFoundReported | week3/server/tools.py:336-341 | a 404 or "Invalid id" 400 is raised by the client after one call and reported as not_found with the id in the message |
| MessageCodec.ExtractHeaderFirst | week3/server/tools.py:61-74 | `ExtractHeader` returns None when no header name matches ignoring case, and otherwise the value of the first match |
| MessageCodec.FirstHeaderWins | week3/server/tools.py:71-73 | a header appended after a prefix with no match decides the result, whatever follows |
| MessageCodec.HeaderDictLastWins | week3/server/tools.py:310-314 | for `HeaderDict`, the dict's keys are the header names; a name's value is that of its last occurrence |
| MessageCodec.BuildHeaderDict | week3/server/tools.py:310-314 | the header loop builds the header-dict specification, with one key per name |
| MessageCodec.RepeatedHeaderExample | week3/server/tools.py:61-74 | with two `Received` headers, lookup keeps the first value and the dict keeps the last |
| MessageCodec.DecodeBody | week3/server/tools.py:76-124 | the recursive method with its parts loop computes the body-walk specification |
| MessageCodec.KindsExclusive | week3/server/tools.py:93-109 | no MIME type counts as both text/plain and text/html |
| MessageCodec.VisitField | week3/server/tools.py:102-122 | one child sets a field when it is a direct source of that kind; otherwise a nested result fills the field only if it is still unset |
| MessageCodec.OwnField | week3/server/tools.py:88-98 | the node's own decoded data starts the field of its kind, and undecodable data leaves it unset |
| MessageCodec.ScanKeepsFilled | week3/server/tools.py:101-122 | a filled field survives the rest of the loop when no later child is a direct source of its kind |
| MessageCodec.LeafBody | week3/server/tools.py:88-98 | a node without parts yields its own decoded data under its type, and nothing for another type |
| MessageCodec.OwnBodyKept | week3/server/tools.py:88-122 | the node's own filled data is kept when no direct child is a source of that kind |
| MessageCodec.LastDirectChildWins | week3/server/tools.py:103-114 | among direct children, the last source of a kind wins when it decodes to non-empty text; one that decodes to "" can still be replaced by a later child's nested text |
| MessageCodec.FirstNestedFills | week3/server/tools.py:117-122 | with no direct source anywhere in the node, the first nested part with a filled body of that kind provides it |
| MessageCodec.BodyProvenance | week3/server/tools.py:76-124 | every body the walk `BodyOf` returns is the decoded data of a node of that kind reachable from the payload |
| Hashtags.TagEnd | week4/backend/app/services/extract.py:10 | `\w+` is greedy: every character after the `#` up to the end is a word character, and the end is the first non-word character or the end of the text |
| Hashtags.TagsFrom | week4/backend/app/services/extract.py:10 | every name found is non-empty and made of word characters |
| Hashtags.TagsFromPositions | week4/backend/app/services/extract.py:10 | the left-to-right scan finds exactly the names at the positions where a `#` is followed by a word character, in text order |
| Hashtags.HashTagsPositions | week4/backend/app/services/extract.py:10 | `HashTags` (`re.findall(r"#(\w+)", s)`): a name is found exactly when some `#` followed by a word character starts it, and the list follows the text |
| Hashtags.RemoveHashTagsKeeps | week4/backend/app/services/extract.py:11 | `RemoveHashTags` keeps exactly the characters outside the tags, in order; a text without tags is unchanged |
| Hashtags.CollapseSpaceFixed | week4/backend/app/services/extract.py:11 | `CollapseSpace` leaves a text whose whitespace is already single plain spaces unchanged |
| Hashtags.HashTagsEmpty | week4/backend/app/services/extract.py:17-18 | findall finds nothing exactly when no `#` is followed by a word character |
| Hashtags.RemoveHashTagsClean | week4/backend/app/services/extract.py:11 | deleting the tags leaves no tag, even where the deletion joins a `#` to word characters |
| Hashtags.CollapseFromShape | week4/backend/app/services/extract.py:11 | after collapsing, every whitespace character is a single plain space |
| Hashtags.CollapseSpaceClean | week4/backend/app/services/extract.py:11 | collapsing whitespace creates no tag |
| Week4Extract.ExtractActionItems | week4/backend/app/services/extract.py:4-14 | the line loop returns the items of the item specification, in line order |
| Week4Extract.ExtractTags | week4/backend/app/services/extract.py:17-18 | the names of the tags at each `#` followed by a word character, in text order; a name is found exactly when such a tag starts it; empty exactly when the text has no tag; every name is non-empty and made of word characters |
| Week4Extract.ItemOfContract | week4/backend/app/services/extract.py:7-13 | `ItemOf`: a line yields an item exactly when its trimmed form is non-blank and has a tag, or its text ends with `!`, or its lowered text starts with `todo:`; the item's tags are the tag names of the trimmed line, in order; its text is the characters outside the tags with whitespace collapsed and stripped, and has no tag and only single inner spaces |
| Week4Extract.CleanTextShape | week4/backend/app/services/extract.py:11 | the clean text has no tag, no whitespace at its ends and no whitespace but single spaces |
| Week4Extract.CleanTextKeeps | week4/backend/app/services/extract.py:11 | `CleanText` is the characters outside the tags, whitespace collapsed and stripped; a text without tags and with single inner spaces is its own clean text; cleaning twice changes nothing |
| Week4Extract.CleanSpaced | week4/backend/app/services/extract.py:11 | words separated and followed by runs of spaces are cleaned to the words joined by single spaces |
| Week4Extract.TwoTagNote | week4/backend/app/services/extract.py:6-18 | the one-line note `- a#t1 b#t2`, where `a` and `b` are plain words and spaces, gives one item, its text the words joined by single spaces and its tags `[t1, t2]`; `extract_tags` finds `[t1, t2]` |
| Week4Extract.OneTagNote | week4/backend/app/services/extract.py:6-13 | the one-line note `- a#t`, where `a` is plain words and spaces, gives one item with the words joined by single spaces and the tags `[t]` |
| Week4Extract.DeployExample | week4/backend/tests/test_extract.py:50-58 | `- TODO: deploy #infra and notify #team` gives exactly one item, text `TODO: deploy and notify`, tags `[infra, team]`, and `extract_tags` gives `[infra, team]` |
| Week4Extract.ReplyExample | week4/backend/tests/test_extract.py:13-18 | `- 记得回复邮件 #work #urgent` gives exactly one item, text `记得回复邮件`, tags `[work, urgent]` |
| Week4Extract.ShoppingExample | week4/backend/tests/test_extract.py:21-26 | `- TODO: 买牛奶 #shopping` gives exactly one item, text `TODO: 买牛奶`, tags `[shopping]` |
| Week4Extract.TagExamples | week4/backend/tests/test_extract.py:35-43 | `extract_tags` gives `[world]` for `Hello #world` and `[alpha, beta]` for `Tagged as #alpha and #beta today` |
| Week4Extract.ItemsOfLines | week4/backend/app/services/extract.py:6-14 | the items are exactly those the lines yield, at most one per line |
| Week2Extract.BulletMatch | week2/app/services/extract.py:13 | a match ends in whitespace, and the whole whitespace run is taken |
| Week2Extract.BulletMatchShape | week2/app/services/extract.py:13 | the scan finds a prefix exactly when the pattern `\s*([-*•]\|\d+\.)\s+` matches one, and it finds the longest |
| Week2Extract.RemoveBulletContract | week2/app/services/extract.py:13-42 | `sub` removes exactly the longest prefix matching the bullet pattern, only at the start, and leaves a line without a match unchanged |
| Week2Extract.BulletMatchLower | week2/app/services/extract.py:22-42 | the lowered and the original line have the same bullet match |
| Week2Extract.ExtractActionItems | week2/app/services/extract.py:34-66 | the two collection loops and the dedup loop return the case-insensitive deduplication of the candidates |
| Week2Extract.ImperativeSentences | week2/app/services/extract.py:49-56 | the fallback loop keeps the stripped non-blank sentences whose first word is an imperative starter |
| Week2Extract.DedupIgnoringCase | week2/app/services/extract.py:57-66 | the seen-set loop computes the order-preserving deduplication by lowered text |
| Week2Extract.ActionItemsContract | week2/app/services/extract.py:48-66 | no two items are equal ignoring case; each item is a candidate, and every candidate is represented by an item with the same lowered text; each item is the first candidate with its lowered text, and items follow the order in which their lowered texts first appear, so deduplication preserves order as line 57 promises |
| Week2Extract.LineItemsMembers | week2/app/services/extract.py:36-47 | the line items are exactly what the lines yield |
| Week2Extract.LineItemsEmpty | week2/app/services/extract.py:48-49 | the sentence fallback runs exactly when no line yields an item |
| Week2Extract.SentenceItemsMembers | week2/app/services/extract.py:49-56 | the sentence items are exactly what the sentences of the stripped note yield |
| Week2Extract.LineItemContract | week2/app/services/extract.py:21-47 | a line yields an item exactly when it is non-blank and an action line (`IsActionLine`); the item `CleanLine` builds has no whitespace at either end |
| Week2Extract.FirstWordOf | week2/app/services/extract.py:109-112 | the first `[A-Za-z']+` word of non-letters, then a word, then a rest that does not continue it, is that word |
| Week2Extract.SentenceItemFirstWord | week2/app/services/extract.py:51-56 | with `LooksImperative`, a sentence whose stripped text is non-letters, a word and a rest yields its stripped text exactly when the lowered word is one of the twelve starters, and nothing otherwise |
| Week2Extract.SentenceItemNoWord | week2/app/services/extract.py:108-111 | a sentence with no ASCII letter or apostrophe yields nothing |
| Week2Extract.FirstWordFrom | week2/app/services/extract.py:109-112 | the first word is a maximal `[A-Za-z']+` run before which there is no word letter; there is none only when the text has no word letter |
| Week2Extract.SplitSentencesShape | week2/app/services/extract.py:50 | at least one piece; the pieces, rejoined with non-empty whitespace separators, give the text back; no piece holds a split point; every piece but the last is non-empty and ends with `.`, `!` or `?`; no piece after the first starts with whitespace, so each separator is the whole whitespace run |
| Week2Extract.SplitRunExample | week2/app/services/extract.py:50 | `a.`, two spaces, `b` splits into exactly `a.` and `b`: the two spaces form one separator |
| Week2Extract.CheckboxBulletExample | week2/app/services/extract.py:42-46 | `- [ ] Set up database` yields `Set up database` |
| Week2Extract.NumberedBulletExample | week2/app/services/extract.py:13-43 | `1. Write tests` yields `Write tests` |
| Week2Extract.UpperTodoKeptExample | week2/app/services/extract.py:22-46 | `[TODO] x` is an action line but keeps its `[TODO]` |
| Week5Extract.ActionItemsMembers | week5/backend/app/services/extract.py:4-6 | of `ExtractActionItems`: an item is exactly a non-blank line, trimmed of `-` and space, that ends with `!` or whose lowered form starts with `todo:`; at most one item per line |
| Week5Extract.ExtractTags | week5/backend/app/services/extract.py:9-18 | the seen-set loop returns the deduplication of all tag names |
| Week5Extract.UniqueTagsContract | week5/backend/app/services/extract.py:9-18 | no name twice; the same names as findall; in first-occurrence order; empty exactly when the text has no tag |
| Week5Extract.TaskOf | week5/backend/app/services/extract.py:23 | a task is what follows `- [ ] ` at the start of its line |
| Week5Extract.TasksContract | week5/backend/app/services/extract.py:21-23 | of `ExtractTasks`: a task is exactly the non-empty remainder of a line beginning with `- [ ] `; no task is empty or holds a newline |
| Week5Extract.NotATaskExamples | week5/backend/app/services/extract.py:23 | `- [x] already done` and `#python - [ ] write tests` give no task |
| Dedup.DedupByKeys | week2/app/services/extract.py:57-66 | deduplication keeps every key and invents no element |
| Dedup.DedupByDistinct | week3/server/tools.py:172-180 | the output has pairwise distinct keys |
| Dedup.DedupByFirstSeen | week5/backend/app/services/extract.py:12-18 | each output element is the first input element with its key, and keys come in order of first appearance |
| Dedup.DistinctKeyCount | week3/server/tools.py:172-180 | the output length is the number of distinct keys |
| Common.SplitLinesNoBoundary | week4/backend/app/services/extract.py:6 | no line contains a line boundary |
| Common.SplitJoin | week3/server/tools.py:59 | splitting on a separator undoes joining with it when no part contains it |
| Common.TrimSlice | week4/backend/app/services/extract.py:7 | stripping leaves a slice that neither starts nor ends with a stripped character |
| Common.RemovePrefixContract | week2/app/services/extract.py:45-46 | `removeprefix` drops the prefix exactly when the string starts with it, and returns the string unchanged otherwise |
| Common.RunEndAll | week2/app/services/extract.py:13 | a greedy run consists only of characters of its class |
| Common.FilterMapMembers | week5/backend/app/services/extract.py:5-6 | a comprehension keeps exactly the values its elements yield |

## Left out

- Authentication (`auth.py`, `auth_cli.py`), the MCP server in `main.py` and the FastAPI routers, ORM models and database configuration are not part of this model. They are I/O and framework glue.
- The Gmail API transport (`build`, `.execute()`) and `time.sleep` are a scripted oracle and a delay log.
- `backoff_base` is a whole number of seconds, not a float.
- Base64url and UTF-8 decoding is the parameter `dec`. The leniency of `urlsafe_b64decode` is not modelled.
- `extract_action_items_llm` and the week1 prompting code call a language model and are not part of this model.
- `\w`, `\d` and `str.lower()` are restricted to ASCII. Python applies them to all of Unicode, where a few characters lower to a different length.
- The tool-level scripts give the outcome of each client call after its retries. They are not composed from the HTTP-level scripts. `RateLimitedSearch` and `NotFoundReported` connect the two for one case each.
- GmailTools.EnrichResults: only a failure of the `get_message` call degrades an item. The model does not capture an exception raised while reading headers from a malformed response.
- GmailTools.GetMessageTool: an exception raised while reading a malformed response, which the source reports as `unknown_error`, is not modelled; only the client call can fail.
- GmailTools.Paginate: a page (`ListPage`) is a typed list of entries. A response whose `messages` key is present but null makes `response.get('messages', [])` return `None`. The loop over it (week3/server/tools.py:172) then raises a `TypeError` that escapes the tool. The model cannot express this case.
- GmailTools.SearchError: the error reply's `results: []` field is implied by the constructor and not carried.
- GmailTools.MessageReplyContract: the header dictionary is a `map`, so the model does not capture the key order of the Python dict.
- GmailTools.CombineQuery: an absent `label_ids` and an empty list add the same nothing and are not told apart.
- Week2Extract.ExtractActionItems: the method's three loops are split into the line loop, `ImperativeSentences` and `DedupIgnoringCase`, all called in the source's order.
- Week5Extract.ExtractActionItems: the two list comprehensions are two `FilterMap` stages.
- The week5 router test `test_extract_endpoint_returns_structured_result` expects the task `write tests` from the note `#python - [ ] write tests`. `extract_tasks` only matches `- [ ] ` at the start of a line, so it returns no task for that note (`Week5Extract.NotATaskExamples`). The router is not modelled; the mismatch is noted here.
