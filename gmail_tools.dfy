/** The tool layer `GmailMcpTools`: query combination, the paginated,
    deduplicated search with metadata enrichment, and the message fetch with
    its error mapping.

    The client calls are scripted oracles at the level of the client's own
    methods (each already wrapped in the retry loop of `GmailClient`): call
    number `k` of `list_messages` yields `Call(listScript, k)` and call number
    `k` of `get_message` yields `Call(getScript, k)`. */
module GmailTools {
  import opened Common
  import opened Dedup
  import opened GmailClient
  import opened MessageCodec

  // ---------------------------------------------------------------------------
  // Constants
  // ---------------------------------------------------------------------------

  /** The safety limit on `messages.list` pages per search. */
  const MaxPages: nat := 10

  /** `metadata_enrichment_limit`: only the first results get headers. */
  const EnrichmentLimit: nat := 10

  /** The query used when no filter is given. */
  const MatchAllQuery := "in:anywhere"

  const NoResultsHint := "No messages found. Try adjusting your search criteria."
  const AuthFailedMessage := "Gmail API authentication failed. Please re-authorize by running: python server/auth_cli.py"
  const RateLimitMessage := "Gmail API rate limit exceeded. Please try again later."

  /** The `error` codes a tool reply can carry. */
  datatype ErrorTag = AuthenticationError | RateLimited | NotFound | ApiError | UnknownError

  function Code(t: ErrorTag): string {
    match t
    case AuthenticationError => "authentication_error"
    case RateLimited => "rate_limited"
    case NotFound => "not_found"
    case ApiError => "api_error"
    case UnknownError => "unknown_error"
  }

  // ---------------------------------------------------------------------------
  // _combine_query
  // ---------------------------------------------------------------------------

  /** `f"newer_than:{n}d"`. */
  function NewerThanFilter(n: int): string {
    "newer_than:" + IntToDecimal(n) + "d"
  }

  /** `f"label:{l}"` for each label, in order. */
  function LabelFilters(labels: seq<string>): (r: seq<string>)
    ensures |r| == |labels|
    ensures forall i :: 0 <= i < |labels| ==> r[i] == "label:" + labels[i]
  {
    if labels == [] then [] else ["label:" + labels[0]] + LabelFilters(labels[1..])
  }

  /** The list `parts` that `_combine_query` builds: the stripped base query
      when it is not blank, the age filter when given, then one filter per
      label (`None` and the empty list both add none). */
  function QueryParts(query: string, newerThanDays: Option<int>, labelIds: Option<seq<string>>): seq<string> {
    (if Strip(query) != [] then [Strip(query)] else [])
    + (if newerThanDays.Some? then [NewerThanFilter(newerThanDays.value)] else [])
    + LabelFilters(labelIds.GetOr([]))
  }

  /** `_combine_query`: the parts joined by single spaces, or the match-all
      query when there are none. */
  function CombineQuery(query: string, newerThanDays: Option<int>, labelIds: Option<seq<string>>): (q: string)
    ensures q != []
    ensures QueryParts(query, newerThanDays, labelIds) == [] ==> q == MatchAllQuery
  {
    var parts := QueryParts(query, newerThanDays, labelIds);
    if parts == [] then MatchAllQuery
    else
      JoinNonEmpty(parts);
      Join(parts, " ")
  }

  lemma {:induction false} JoinNonEmpty(parts: seq<string>)
    requires parts != [] && parts[0] != []
    ensures Join(parts, " ") != []
  {
    if |parts| > 1 {
      assert Join(parts, " ")[0] == parts[0][0];
    }
  }

  /** Every filter the caller gave occurs in the combined query: the
      stripped base query, `newer_than:Nd`, and `label:L` for every label. */
  lemma CombineQueryContains(query: string, newerThanDays: Option<int>, labelIds: Option<seq<string>>)
    ensures Strip(query) != [] ==> Contains(CombineQuery(query, newerThanDays, labelIds), Strip(query))
    ensures newerThanDays.Some? ==> Contains(CombineQuery(query, newerThanDays, labelIds), NewerThanFilter(newerThanDays.value))
    ensures forall l :: l in labelIds.GetOr([]) ==> Contains(CombineQuery(query, newerThanDays, labelIds), "label:" + l)
    ensures QueryParts(query, newerThanDays, labelIds) == [] <==>
      Strip(query) == [] && newerThanDays.None? && labelIds.GetOr([]) == []
  {
    var parts := QueryParts(query, newerThanDays, labelIds);
    var q := CombineQuery(query, newerThanDays, labelIds);
    var base := if Strip(query) != [] then 1 else 0;
    var age := if newerThanDays.Some? then 1 else 0;
    var labels := labelIds.GetOr([]);
    assert |parts| == base + age + |labels|;
    assert parts != [] ==> q == Join(parts, " ");
    if Strip(query) != [] {
      assert Contains(q, Strip(query)) by {
        assert parts[0] == Strip(query);
        JoinContains(parts, " ", 0);
      }
    }
    if newerThanDays.Some? {
      assert Contains(q, NewerThanFilter(newerThanDays.value)) by {
        assert parts[base] == NewerThanFilter(newerThanDays.value);
        JoinContains(parts, " ", base);
      }
    }
    forall l | l in labels
      ensures Contains(q, "label:" + l)
    {
      var i :| 0 <= i < |labels| && labels[i] == l;
      assert parts[base + age + i] == "label:" + l;
      JoinContains(parts, " ", base + age + i);
    }
  }

  /** When no filter contains a space, `str.split(" ")` recovers the filters
      from the combined query. */
  lemma CombineQuerySplit(query: string, newerThanDays: Option<int>, labelIds: Option<seq<string>>)
    requires QueryParts(query, newerThanDays, labelIds) != []
    requires forall p :: p in QueryParts(query, newerThanDays, labelIds) ==> ' ' !in p
    ensures SplitOn(CombineQuery(query, newerThanDays, labelIds), ' ') == QueryParts(query, newerThanDays, labelIds)
  {
    var parts := QueryParts(query, newerThanDays, labelIds);
    assert forall i :: 0 <= i < |parts| ==> parts[i] in parts;
    SplitJoin(parts, ' ');
  }

  // ---------------------------------------------------------------------------
  // Listing pages
  // ---------------------------------------------------------------------------

  /** One element of a page's `messages` list. */
  datatype MessageEntry = MessageEntry(id: Option<string>, threadId: Option<string>)

  /** A `messages.list` response: `messages` (`[]` when absent) and
      `nextPageToken`. */
  datatype ListPage = ListPage(messages: seq<MessageEntry>, nextPageToken: Option<string>)

  /** An entry of `all_message_ids`: `{'id': ..., 'threadId': ...}`. */
  datatype MessageRef = MessageRef(id: string, threadId: string)

  function RefId(r: MessageRef): string {
    r.id
  }

  /** `{'id': msg_id, 'threadId': msg.get('threadId', '')}`. */
  function RefOf(e: MessageEntry): MessageRef
    requires e.id.Some?
  {
    MessageRef(e.id.value, e.threadId.GetOr(""))
  }

  /** The entries of a page with a truthy id, as references, in page order. */
  function NewRefs(entries: seq<MessageEntry>): (refs: seq<MessageRef>)
    ensures forall i :: 0 <= i < |refs| ==> refs[i].id != []
    decreases |entries|
  {
    if entries == [] then []
    else
      var n := |entries| - 1;
      var last := entries[n];
      NewRefs(entries[..n]) + if Filled(last.id) then [RefOf(last)] else []
  }

  /** The references of a page are exactly the entries with a truthy id. */
  lemma {:induction false} NewRefsMembers(entries: seq<MessageEntry>)
    ensures forall r :: r in NewRefs(entries) <==>
      exists j :: 0 <= j < |entries| && Filled(entries[j].id) && r == RefOf(entries[j])
    decreases |entries|
  {
    if entries != [] {
      var n := |entries| - 1;
      NewRefsMembers(entries[..n]);
      assert forall j :: 0 <= j < n ==> entries[..n][j] == entries[j];
    }
  }

  /** A page whose entries all have truthy ids contributes all of them, in order. */
  lemma {:induction false} NewRefsAllFilled(entries: seq<MessageEntry>)
    requires forall j :: 0 <= j < |entries| ==> Filled(entries[j].id)
    ensures |NewRefs(entries)| == |entries|
    ensures forall j :: 0 <= j < |entries| ==> entries[j].id.Some? && NewRefs(entries)[j] == RefOf(entries[j])
    decreases |entries|
  {
    if entries != [] {
      var n := |entries| - 1;
      assert forall j :: 0 <= j < n ==> entries[..n][j] == entries[j];
      NewRefsAllFilled(entries[..n]);
    }
  }

  /** The arguments the tool passes to `list_messages`. */
  datatype PageRequest = PageRequest(query: string, maxResults: int, pageToken: Option<string>)

  /** `min(500, max_results * 2)`: twice the wanted count, to make up for
      duplicates, capped at the largest page. */
  function RequestedPageSize(maxResults: int): (n: int)
    ensures n <= ListPageCeiling
    ensures maxResults * 2 <= ListPageCeiling ==> n == maxResults * 2
    ensures ListPageCeiling < maxResults * 2 ==> n == ListPageCeiling
  {
    if ListPageCeiling < maxResults * 2 then ListPageCeiling else maxResults * 2
  }

  /** `s[:n]` for an integer `n`: a negative `n` counts from the end. */
  function PySlicePrefix<T>(s: seq<T>, n: int): (r: seq<T>)
    ensures |r| == if n >= 0 then (if n < |s| then n else |s|) else (if |s| + n > 0 then |s| + n else 0)
    ensures r == s[..|r|]
  {
    if n >= 0 then (if n < |s| then s[..n] else s)
    else if |s| + n > 0 then s[..|s| + n] else []
  }

  /** How the page loop ends: the collected references, the `HttpError` that
      ended it, or another exception, which escapes the tool. */
  datatype ListResult =
    | Listed(refs: seq<MessageRef>)
    | ListHttpError(error: HttpError)
    | ListRaised(message: string)

  datatype Listing = Listing(result: ListResult, requests: seq<PageRequest>)

  /** The page loop from page `page` on, with `raw` the references of the
      pages read so far (duplicates included) and `token` the token to send. */
  function Paginate(query: string, maxResults: int, listScript: seq<Outcome<ListPage>>,
                    page: nat, token: Option<string>, raw: seq<MessageRef>): Listing
    requires page <= MaxPages
    decreases MaxPages - page
  {
    if page == MaxPages then Listing(Listed(DedupBy(raw, RefId)), [])
    else
      var req := PageRequest(query, RequestedPageSize(maxResults), token);
      match Call(listScript, page)
      case HttpFailure(e) => Listing(ListHttpError(e), [req])
      case OtherFailure(m) => Listing(ListRaised(m), [req])
      case Return(pg) =>
        var raw' := raw + NewRefs(pg.messages);
        var ids := DedupBy(raw', RefId);
        if |ids| >= maxResults then Listing(Listed(PySlicePrefix(ids, maxResults)), [req])
        else if !Filled(pg.nextPageToken) then Listing(Listed(ids), [req])
        else
          var rest := Paginate(query, maxResults, listScript, page + 1, pg.nextPageToken, raw');
          Listing(rest.result, [req] + rest.requests)
  }

  /** The inner loop over one page's `messages`: each entry with a truthy
      id not yet in `seen_ids` is appended and its id remembered. */
  method AddNewIds(ids: seq<MessageRef>, seenIds: set<string>, messages: seq<MessageEntry>, ghost raw: seq<MessageRef>)
    returns (ids': seq<MessageRef>, seenIds': set<string>)
    requires ids == DedupBy(raw, RefId) && seenIds == KeySet(ids, RefId)
    ensures ids' == DedupBy(raw + NewRefs(messages), RefId)
    ensures seenIds' == KeySet(ids', RefId)
  {
    ids', seenIds' := ids, seenIds;
    assert raw + NewRefs(messages[..0]) == raw;
    for j := 0 to |messages|
      invariant ids' == DedupBy(raw + NewRefs(messages[..j]), RefId)
      invariant seenIds' == KeySet(ids', RefId)
    {
      var msg := messages[j];
      assert messages[..j + 1][..j] == messages[..j];
      ghost var before := raw + NewRefs(messages[..j]);
      if Filled(msg.id) {
        assert raw + NewRefs(messages[..j + 1]) == before + [RefOf(msg)];
        DedupBySnoc(before, RefOf(msg), RefId);
        if msg.id.value !in seenIds' {
          KeySetSnoc(ids', RefOf(msg), RefId);
          ids' := ids' + [MessageRef(msg.id.value, msg.threadId.GetOr(""))];
          seenIds' := seenIds' + {msg.id.value};
        }
      } else {
        assert NewRefs(messages[..j + 1]) == NewRefs(messages[..j]);
      }
    }
    assert messages[..|messages|] == messages;
  }

  /** One page of the loop that returns a page with a truthy token and too
      few ids: the request is sent and the loop goes on with the next token. */
  lemma PaginateStep(query: string, maxResults: int, listScript: seq<Outcome<ListPage>>,
                     page: nat, token: Option<string>, raw: seq<MessageRef>)
    requires page < MaxPages && Call(listScript, page).Return?
    requires |DedupBy(raw + NewRefs(Call(listScript, page).value.messages), RefId)| < maxResults
    requires Filled(Call(listScript, page).value.nextPageToken)
    ensures var rest := Paginate(query, maxResults, listScript, page + 1, Call(listScript, page).value.nextPageToken,
                                 raw + NewRefs(Call(listScript, page).value.messages));
      Paginate(query, maxResults, listScript, page, token, raw) ==
        Listing(rest.result, [PageRequest(query, RequestedPageSize(maxResults), token)] + rest.requests)
  {
  }

  /** A page whose list call fails ends the loop with that failure. */
  lemma PaginateFails(query: string, maxResults: int, listScript: seq<Outcome<ListPage>>,
                      page: nat, token: Option<string>, raw: seq<MessageRef>)
    requires page < MaxPages && !Call(listScript, page).Return?
    ensures Paginate(query, maxResults, listScript, page, token, raw) ==
      Listing(if Call(listScript, page).HttpFailure? then ListHttpError(Call(listScript, page).error)
              else ListRaised(Call(listScript, page).message),
              [PageRequest(query, RequestedPageSize(maxResults), token)])
  {
  }

  /** A page that reaches the limit, or has no truthy token, ends the loop
      with the distinct ids so far, cut to the limit. */
  lemma PaginateLastPage(query: string, maxResults: int, listScript: seq<Outcome<ListPage>>,
                         page: nat, token: Option<string>, raw: seq<MessageRef>)
    requires page < MaxPages && Call(listScript, page).Return?
    requires |DedupBy(raw + NewRefs(Call(listScript, page).value.messages), RefId)| >= maxResults ||
             !Filled(Call(listScript, page).value.nextPageToken)
    ensures Paginate(query, maxResults, listScript, page, token, raw) ==
      Listing(Listed(
                if |DedupBy(raw + NewRefs(Call(listScript, page).value.messages), RefId)| >= maxResults
                then PySlicePrefix(DedupBy(raw + NewRefs(Call(listScript, page).value.messages), RefId), maxResults)
                else DedupBy(raw + NewRefs(Call(listScript, page).value.messages), RefId)),
              [PageRequest(query, RequestedPageSize(maxResults), token)])
  {
  }

  /** The `for page_num in range(max_pages)` loop of `gmail_search_messages`. */
  method CollectMessageIds(query: string, maxResults: int, listScript: seq<Outcome<ListPage>>)
    returns (result: ListResult, requests: seq<PageRequest>)
    ensures Listing(result, requests) == Paginate(query, maxResults, listScript, 0, None, [])
  {
    var ids: seq<MessageRef> := [];
    var seenIds: set<string> := {};
    var token: Option<string> := None;
    requests := [];
    ghost var raw: seq<MessageRef> := [];
    for pageNum := 0 to MaxPages
      invariant ids == DedupBy(raw, RefId) && seenIds == KeySet(ids, RefId)
      invariant Paginate(query, maxResults, listScript, 0, None, []) ==
        Listing(Paginate(query, maxResults, listScript, pageNum, token, raw).result,
                requests + Paginate(query, maxResults, listScript, pageNum, token, raw).requests)
    {
      var req := PageRequest(query, RequestedPageSize(maxResults), token);
      var response := Call(listScript, pageNum);
      if !response.Return? {
        PaginateFails(query, maxResults, listScript, pageNum, token, raw);
        result := if response.HttpFailure? then ListHttpError(response.error) else ListRaised(response.message);
        requests := requests + [req];
        return;
      }
      var pg := response.value;
      ghost var oldToken, oldRaw := token, raw;
      ids, seenIds := AddNewIds(ids, seenIds, pg.messages, raw);
      raw := raw + NewRefs(pg.messages);
      if |ids| >= maxResults {
        PaginateLastPage(query, maxResults, listScript, pageNum, oldToken, oldRaw);
        result := Listed(PySlicePrefix(ids, maxResults));
        requests := requests + [req];
        return;
      }
      token := pg.nextPageToken;
      if !Filled(token) {
        PaginateLastPage(query, maxResults, listScript, pageNum, oldToken, oldRaw);
        result := Listed(ids);
        requests := requests + [req];
        return;
      }
      PaginateStep(query, maxResults, listScript, pageNum, oldToken, oldRaw);
      ghost var rest := Paginate(query, maxResults, listScript, pageNum + 1, token, raw);
      assert requests + ([req] + rest.requests) == (requests + [req]) + rest.requests;
      requests := requests + [req];
    }
    result := Listed(ids);
    assert requests + [] == requests;
  }

  /** The references of the pages returned by the first `n` list calls, in
      call order, duplicates included. */
  function PagesRefs(listScript: seq<Outcome<ListPage>>, n: nat): seq<MessageRef> {
    if n == 0 then []
    else
      var o := Call(listScript, n - 1);
      PagesRefs(listScript, n - 1) + (if o.Return? then NewRefs(o.value.messages) else [])
  }

  /** The page token sent with list call `k`: none for the first call, and
      the previous page's `nextPageToken` after it. */
  function TokenBefore(listScript: seq<Outcome<ListPage>>, k: nat): Option<string> {
    if k == 0 then None
    else
      var o := Call(listScript, k - 1);
      if o.Return? then o.value.nextPageToken else None
  }

  /** How the loop ends after `n` list calls, in terms of the last call. */
  predicate LastPage(result: ListResult, listScript: seq<Outcome<ListPage>>, n: nat, maxResults: int)
    requires n >= 1
  {
    match Call(listScript, n - 1)
    case HttpFailure(e) => result == ListHttpError(e)
    case OtherFailure(m) => result == ListRaised(m)
    case Return(pg) =>
      var ids := DedupBy(PagesRefs(listScript, n), RefId);
      && (|ids| >= maxResults ==> result == Listed(PySlicePrefix(ids, maxResults)))
      && (|ids| < maxResults ==> result == Listed(ids) && (!Filled(pg.nextPageToken) || n == MaxPages))
  }

  /** What the page loop promises, for any sequence of client replies:
      - it makes between 1 and `MaxPages` list calls;
      - every call asks for the same query and page size, the first without a
        token and each later one with the token of the page before;
      - every call but the last returned a page with a truthy token while
        fewer than `max_results` distinct ids had been seen;
      - the last call decides the outcome: its error, or the distinct ids
        of all pages read, in first-seen order, cut to `max_results`. */
  lemma PaginateContract(query: string, maxResults: int, listScript: seq<Outcome<ListPage>>)
    ensures var l := Paginate(query, maxResults, listScript, 0, None, []);
      && 1 <= |l.requests| <= MaxPages
      && (forall k :: 0 <= k < |l.requests| ==>
            l.requests[k] == PageRequest(query, RequestedPageSize(maxResults), TokenBefore(listScript, k)))
      && (forall k :: 0 <= k < |l.requests| - 1 ==>
            Call(listScript, k).Return? && Filled(Call(listScript, k).value.nextPageToken) &&
            |DedupBy(PagesRefs(listScript, k + 1), RefId)| < maxResults)
      && LastPage(l.result, listScript, |l.requests|, maxResults)
  {
    var l := Paginate(query, maxResults, listScript, 0, None, []);
    PaginateFromContract(query, maxResults, listScript, 0);
    assert PagesRefs(listScript, 0) == [] && TokenBefore(listScript, 0) == None;
    forall k | 0 <= k < |l.requests| - 1
      ensures Call(listScript, k).Return? && Filled(Call(listScript, k).value.nextPageToken) &&
              |DedupBy(PagesRefs(listScript, k + 1), RefId)| < maxResults
    {
      assert MovedOn(maxResults, listScript, k);
    }
  }

  /** The conjunction `PaginateContract` states, for the loop from page `p`. */
  predicate FromContract(query: string, maxResults: int, listScript: seq<Outcome<ListPage>>, p: nat, l: Listing) {
    && p + 1 <= p + |l.requests| <= MaxPages
    && RequestsFrom(query, maxResults, listScript, p, l.requests)
    && ContinuesFrom(maxResults, listScript, p, p + |l.requests|)
    && LastPage(l.result, listScript, p + |l.requests|, maxResults)
  }

  /** The requests of the calls from page `p` on. */
  predicate RequestsFrom(query: string, maxResults: int, listScript: seq<Outcome<ListPage>>, p: nat, reqs: seq<PageRequest>) {
    forall k :: 0 <= k < |reqs| ==>
      reqs[k] == PageRequest(query, RequestedPageSize(maxResults), TokenBefore(listScript, p + k))
  }

  /** List call `k` returned a page with a truthy token while fewer than
      `max_results` distinct ids had been seen, so the loop went on. */
  predicate MovedOn(maxResults: int, listScript: seq<Outcome<ListPage>>, k: nat) {
    Call(listScript, k).Return? && Filled(Call(listScript, k).value.nextPageToken) &&
    |DedupBy(PagesRefs(listScript, k + 1), RefId)| < maxResults
  }

  /** Every call from page `p` up to the one before call `n - 1` moved on. */
  predicate ContinuesFrom(maxResults: int, listScript: seq<Outcome<ListPage>>, p: nat, n: nat) {
    forall k: nat :: p <= k < n - 1 ==> MovedOn(maxResults, listScript, k)
  }

  /** A page that ends the loop: one request, and the outcome `LastPage` names. */
  lemma PaginateStops(query: string, maxResults: int, listScript: seq<Outcome<ListPage>>, p: nat)
    requires p < MaxPages
    requires var o := Call(listScript, p);
      !o.Return? || |DedupBy(PagesRefs(listScript, p + 1), RefId)| >= maxResults ||
      !Filled(o.value.nextPageToken) || p + 1 == MaxPages
    ensures FromContract(query, maxResults, listScript, p,
      Paginate(query, maxResults, listScript, p, TokenBefore(listScript, p), PagesRefs(listScript, p)))
  {
    var token := TokenBefore(listScript, p);
    var raw := PagesRefs(listScript, p);
    var l := Paginate(query, maxResults, listScript, p, token, raw);
    var o := Call(listScript, p);
    if !o.Return? {
      PaginateFails(query, maxResults, listScript, p, token, raw);
    } else {
      assert raw + NewRefs(o.value.messages) == PagesRefs(listScript, p + 1);
      if |DedupBy(PagesRefs(listScript, p + 1), RefId)| >= maxResults || !Filled(o.value.nextPageToken) {
        PaginateLastPage(query, maxResults, listScript, p, token, raw);
      } else {
        PaginateAtLimit(query, maxResults, listScript, p, token, raw);
      }
    }
    OneRequestContract(query, maxResults, listScript, p, l);
  }

  /** A listing that made one request, the right one, and ended as
      `LastPage` says meets the contract. */
  lemma OneRequestContract(query: string, maxResults: int, listScript: seq<Outcome<ListPage>>, p: nat, l: Listing)
    requires p < MaxPages
    requires l.requests == [PageRequest(query, RequestedPageSize(maxResults), TokenBefore(listScript, p))]
    requires LastPage(l.result, listScript, p + 1, maxResults)
    ensures FromContract(query, maxResults, listScript, p, l)
  {
    assert p + 0 == p;
  }

  /** A page with a truthy token and too few ids at the last allowed page:
      the loop ends with the ids seen so far. */
  lemma PaginateAtLimit(query: string, maxResults: int, listScript: seq<Outcome<ListPage>>,
                        page: nat, token: Option<string>, raw: seq<MessageRef>)
    requires page + 1 == MaxPages && Call(listScript, page).Return?
    requires |DedupBy(raw + NewRefs(Call(listScript, page).value.messages), RefId)| < maxResults
    requires Filled(Call(listScript, page).value.nextPageToken)
    ensures Paginate(query, maxResults, listScript, page, token, raw) ==
      Listing(Listed(DedupBy(raw + NewRefs(Call(listScript, page).value.messages), RefId)),
              [PageRequest(query, RequestedPageSize(maxResults), token)])
  {
    var raw' := raw + NewRefs(Call(listScript, page).value.messages);
    assert Paginate(query, maxResults, listScript, page + 1, Call(listScript, page).value.nextPageToken, raw') ==
      Listing(Listed(DedupBy(raw', RefId)), []);
  }

  /** A page with a truthy token and too few ids extends the contract of
      the rest of the loop by one request. */
  lemma FromContractCons(query: string, maxResults: int, listScript: seq<Outcome<ListPage>>, p: nat, rest: Listing, l: Listing)
    requires FromContract(query, maxResults, listScript, p + 1, rest) && MovedOn(maxResults, listScript, p)
    requires l == Listing(rest.result, [PageRequest(query, RequestedPageSize(maxResults), TokenBefore(listScript, p))] + rest.requests)
    ensures FromContract(query, maxResults, listScript, p, l)
  {
    var req := PageRequest(query, RequestedPageSize(maxResults), TokenBefore(listScript, p));
    RequestsCons(query, maxResults, listScript, p, rest.requests);
    ContinuesCons(maxResults, listScript, p, (p + 1) + |rest.requests|);
    LastPageShift(rest.result, listScript, (p + 1) + |rest.requests|, p + |[req] + rest.requests|, maxResults);
  }

  lemma LastPageShift(result: ListResult, listScript: seq<Outcome<ListPage>>, n: nat, n': nat, maxResults: int)
    requires n >= 1 && n == n' && LastPage(result, listScript, n, maxResults)
    ensures LastPage(result, listScript, n', maxResults)
  {
  }

  lemma RequestsCons(query: string, maxResults: int, listScript: seq<Outcome<ListPage>>, p: nat, reqs: seq<PageRequest>)
    requires RequestsFrom(query, maxResults, listScript, p + 1, reqs)
    ensures RequestsFrom(query, maxResults, listScript, p,
      [PageRequest(query, RequestedPageSize(maxResults), TokenBefore(listScript, p))] + reqs)
  {
    var l := [PageRequest(query, RequestedPageSize(maxResults), TokenBefore(listScript, p))] + reqs;
    forall k | 0 <= k < |l|
      ensures l[k] == PageRequest(query, RequestedPageSize(maxResults), TokenBefore(listScript, p + k))
    {
      if k > 0 {
        assert l[k] == reqs[k - 1];
        assert (p + 1) + (k - 1) == p + k;
      }
    }
  }

  lemma ContinuesCons(maxResults: int, listScript: seq<Outcome<ListPage>>, p: nat, n: nat)
    requires p + 1 < n
    requires ContinuesFrom(maxResults, listScript, p + 1, n) && MovedOn(maxResults, listScript, p)
    ensures ContinuesFrom(maxResults, listScript, p, n)
  {
  }

  lemma {:induction false} PaginateFromContract(query: string, maxResults: int, listScript: seq<Outcome<ListPage>>, p: nat)
    requires p < MaxPages
    ensures FromContract(query, maxResults, listScript, p,
      Paginate(query, maxResults, listScript, p, TokenBefore(listScript, p), PagesRefs(listScript, p)))
    decreases MaxPages - p
  {
    var o := Call(listScript, p);
    if o.Return? && |DedupBy(PagesRefs(listScript, p + 1), RefId)| < maxResults &&
       Filled(o.value.nextPageToken) && p + 1 < MaxPages {
      var raw' := PagesRefs(listScript, p) + NewRefs(o.value.messages);
      assert raw' == PagesRefs(listScript, p + 1);
      assert TokenBefore(listScript, p + 1) == o.value.nextPageToken;
      PaginateFromContract(query, maxResults, listScript, p + 1);
      PaginateStep(query, maxResults, listScript, p, TokenBefore(listScript, p), PagesRefs(listScript, p));
      var rest := Paginate(query, maxResults, listScript, p + 1, TokenBefore(listScript, p + 1), PagesRefs(listScript, p + 1));
      assert MovedOn(maxResults, listScript, p);
      FromContractCons(query, maxResults, listScript, p, rest,
        Paginate(query, maxResults, listScript, p, TokenBefore(listScript, p), PagesRefs(listScript, p)));
    } else {
      PaginateStops(query, maxResults, listScript, p);
    }
  }

  /** The ids a search collects are distinct, truthy, at most `max_results`
      of them (for a non-negative limit), each from a page that was read,
      and, unless the limit cut the list, every distinct id of those pages. */
  lemma CollectedIds(query: string, maxResults: int, listScript: seq<Outcome<ListPage>>)
    ensures var l := Paginate(query, maxResults, listScript, 0, None, []);
      l.result.Listed? ==>
        var read := PagesRefs(listScript, |l.requests|);
        && KeysDistinct(l.result.refs, RefId)
        && (forall i :: 0 <= i < |l.result.refs| ==> l.result.refs[i].id != [] && l.result.refs[i] in read)
        && (maxResults >= 0 ==> |l.result.refs| <= maxResults)
        && (|l.result.refs| < maxResults ==> KeySet(l.result.refs, RefId) == KeySet(read, RefId))
  {
    var l := Paginate(query, maxResults, listScript, 0, None, []);
    PaginateContract(query, maxResults, listScript);
    if l.result.Listed? {
      var n := |l.requests|;
      var read := PagesRefs(listScript, n);
      var ids := DedupBy(read, RefId);
      DedupByDistinct(read, RefId);
      DedupByKeys(read, RefId);
      PagesRefsIds(listScript, n);
      var refs := l.result.refs;
      assert refs == ids[..|refs|];
      PrefixKeysDistinct(ids, |refs|, RefId);
      assert forall i :: 0 <= i < |refs| ==> refs[i] == ids[i] && ids[i] in ids;
    }
  }

  lemma {:induction false} PagesRefsIds(listScript: seq<Outcome<ListPage>>, n: nat)
    ensures forall r :: r in PagesRefs(listScript, n) ==> r.id != []
  {
    if n > 0 {
      PagesRefsIds(listScript, n - 1);
    }
  }

  // ---------------------------------------------------------------------------
  // Metadata enrichment and the search reply
  // ---------------------------------------------------------------------------

  /** A `messages.get` response: `id`, `threadId`, `snippet` and `payload`,
      each `None` when the key is absent. */
  datatype MessageData = MessageData(id: Option<string>, threadId: Option<string>, snippet: Option<string>, payload: Option<Payload>)

  /** `msg_data.get('payload', {})`. */
  function PayloadOf(msg: MessageData): Payload {
    msg.payload.GetOr(EmptyPayload)
  }

  /** `SearchResultItem`. */
  datatype SearchResultItem = SearchResultItem(
    id: string, threadId: string,
    fromEmail: Option<string>, subject: Option<string>, date: Option<string>, snippet: Option<string>)

  /** `SearchResultItem(id=..., thread_id=...)`: no metadata. */
  function BasicItem(r: MessageRef): SearchResultItem {
    SearchResultItem(r.id, r.threadId, None, None, None, None)
  }

  /** An item filled from a metadata fetch: the first `From`, `Subject` and
      `Date` headers and the snippet (`""` when absent). */
  function EnrichedItem(r: MessageRef, msg: MessageData): SearchResultItem {
    var headers := PayloadOf(msg).headers;
    SearchResultItem(r.id, r.threadId,
      ExtractHeader(headers, "From"), ExtractHeader(headers, "Subject"), ExtractHeader(headers, "Date"),
      Some(msg.snippet.GetOr("")))
  }

  /** `min(self.metadata_enrichment_limit, len(all_message_ids))`. */
  function EnrichCount(n: nat): (c: nat)
    ensures c <= EnrichmentLimit && c <= n
    ensures c == EnrichmentLimit || c == n
  {
    if EnrichmentLimit < n then EnrichmentLimit else n
  }

  /** The `i`-th result: the first `EnrichCount` references are looked up
      with get call number `i`, and any failure of that call falls back to
      the basic item; the others are basic. */
  function ItemAt(refs: seq<MessageRef>, i: nat, getScript: seq<Outcome<MessageData>>): (item: SearchResultItem)
    requires i < |refs|
    ensures item.id == refs[i].id && item.threadId == refs[i].threadId
    ensures EnrichmentLimit <= i ==> item == BasicItem(refs[i])
  {
    if i < EnrichCount(|refs|) then
      match Call(getScript, i)
      case Return(msg) => EnrichedItem(refs[i], msg)
      case _ => BasicItem(refs[i])
    else BasicItem(refs[i])
  }

  /** The enrichment loop `for i, msg_info in enumerate(all_message_ids)`. */
  method EnrichResults(refs: seq<MessageRef>, getScript: seq<Outcome<MessageData>>)
    returns (items: seq<SearchResultItem>, gets: seq<GetRequest>)
    ensures |items| == |refs|
    ensures forall i :: 0 <= i < |refs| ==> items[i] == ItemAt(refs, i, getScript)
    ensures |gets| == EnrichCount(|refs|)
    ensures forall i :: 0 <= i < |gets| ==> gets[i] == GetRequest("me", refs[i].id, "metadata")
  {
    items, gets := [], [];
    var enrichCount := EnrichCount(|refs|);
    for i := 0 to |refs|
      invariant |items| == i && |gets| == if i < enrichCount then i else enrichCount
      invariant forall j :: 0 <= j < i ==> items[j] == ItemAt(refs, j, getScript)
      invariant forall j :: 0 <= j < |gets| ==> gets[j] == GetRequest("me", refs[j].id, "metadata")
    {
      var msgInfo := refs[i];
      var item: SearchResultItem;
      if i < enrichCount {
        gets := gets + [GetRequest("me", msgInfo.id, "metadata")];
        var response := Call(getScript, i);
        if response.Return? {
          item := EnrichedItem(msgInfo, response.value);
        } else {
          item := BasicItem(msgInfo);
        }
      } else {
        item := BasicItem(msgInfo);
      }
      assert item == ItemAt(refs, i, getScript);
      items := items + [item];
    }
  }

  /** The reply of `gmail_search_messages`: results with their count and,
      when there are none, a hint; an error code with its message (the reply
      also carries `results: []`); or an exception that escapes the tool. */
  datatype SearchReply =
    | Found(results: seq<SearchResultItem>, totalCount: nat, hint: Option<string>)
    | SearchFailed(error: ErrorTag, message: string)
    | SearchRaised(message: string)

  /** The `except HttpError` branch of the page loop. */
  function SearchError(e: HttpError): (r: SearchReply)
    ensures r.SearchFailed?
    ensures r.error == AuthenticationError <==> e.status == Some(401)
    ensures r.error == RateLimited <==> e.status == Some(429)
    ensures r.error == ApiError <==> e.status != Some(401) && e.status != Some(429)
    ensures r.error == ApiError ==> r.message == "Gmail API error: " + e.text
  {
    if e.status == Some(401) then SearchFailed(AuthenticationError, AuthFailedMessage)
    else if e.status == Some(429) then SearchFailed(RateLimited, RateLimitMessage)
    else SearchFailed(ApiError, "Gmail API error: " + e.text)
  }

  /** `gmail_search_messages` as a function of its arguments and the client's
      replies. */
  function Search(query: string, maxResults: int, newerThanDays: Option<int>, labelIds: Option<seq<string>>,
                  listScript: seq<Outcome<ListPage>>, getScript: seq<Outcome<MessageData>>): (r: SearchReply)
    ensures r.SearchFailed? ==> r.error in {AuthenticationError, RateLimited, ApiError}
    ensures r.Found? ==> r.totalCount == |r.results| && (r.hint == Some(NoResultsHint) <==> r.results == [])
  {
    var listing := Paginate(CombineQuery(query, newerThanDays, labelIds), maxResults, listScript, 0, None, []);
    match listing.result
    case ListHttpError(e) => SearchError(e)
    case ListRaised(m) => SearchRaised(m)
    case Listed(refs) =>
      if refs == [] then Found([], 0, Some(NoResultsHint))
      else Found(seq(|refs|, i requires 0 <= i < |refs| => ItemAt(refs, i, getScript)), |refs|, None)
  }

  /** The method form of `gmail_search_messages`, with the list and get
      requests it sends. */
  method SearchMessages(query: string, maxResults: int, newerThanDays: Option<int>, labelIds: Option<seq<string>>,
                        listScript: seq<Outcome<ListPage>>, getScript: seq<Outcome<MessageData>>)
    returns (reply: SearchReply, lists: seq<PageRequest>, gets: seq<GetRequest>)
    ensures reply == Search(query, maxResults, newerThanDays, labelIds, listScript, getScript)
    ensures lists == Paginate(CombineQuery(query, newerThanDays, labelIds), maxResults, listScript, 0, None, []).requests
    ensures |gets| <= EnrichmentLimit
    ensures reply.Found? && reply.results != [] ==>
      && |gets| == EnrichCount(|reply.results|)
      && forall i :: 0 <= i < |gets| ==> gets[i] == GetRequest("me", reply.results[i].id, "metadata")
    ensures !(reply.Found? && reply.results != []) ==> gets == []
  {
    var combined := CombineQuery(query, newerThanDays, labelIds);
    var result;
    result, lists := CollectMessageIds(combined, maxResults, listScript);
    gets := [];
    match result
    case ListHttpError(e) =>
      reply := SearchError(e);
    case ListRaised(m) =>
      reply := SearchRaised(m);
    case Listed(refs) =>
      if refs == [] {
        reply := Found([], 0, Some(NoResultsHint));
      } else {
        var items;
        items, gets := EnrichResults(refs, getScript);
        reply := Found(items, |items|, None);
      }
  }

  /** What a search reply promises: `total_count` is the number of results;
      the hint comes exactly with an empty result; the result ids are
      distinct, non-empty and at most `max_results` of them; only the first
      ten results can carry metadata. */
  lemma SearchReplyContract(query: string, maxResults: int, newerThanDays: Option<int>, labelIds: Option<seq<string>>,
                            listScript: seq<Outcome<ListPage>>, getScript: seq<Outcome<MessageData>>)
    ensures var r := Search(query, maxResults, newerThanDays, labelIds, listScript, getScript);
      r.Found? ==>
        && r.totalCount == |r.results|
        && (r.hint.Some? <==> r.results == [])
        && (forall i, j :: 0 <= i < j < |r.results| ==> r.results[i].id != r.results[j].id)
        && (forall i :: 0 <= i < |r.results| ==> r.results[i].id != [])
        && (maxResults >= 0 ==> |r.results| <= maxResults)
        && (forall i :: EnrichmentLimit <= i < |r.results| ==>
              r.results[i].fromEmail.None? && r.results[i].subject.None? && r.results[i].date.None? && r.results[i].snippet.None?)
  {
    var combined := CombineQuery(query, newerThanDays, labelIds);
    CollectedIds(combined, maxResults, listScript);
  }

  /** How a failed page request is reported: 401 and 429 have their own
      codes and every other `HttpError` is an API error, whatever was
      collected on earlier pages; any other exception escapes. */
  lemma SearchErrors(query: string, maxResults: int, newerThanDays: Option<int>, labelIds: Option<seq<string>>,
                     listScript: seq<Outcome<ListPage>>, getScript: seq<Outcome<MessageData>>)
    ensures var l := Paginate(CombineQuery(query, newerThanDays, labelIds), maxResults, listScript, 0, None, []);
      var r := Search(query, maxResults, newerThanDays, labelIds, listScript, getScript);
      && (r.SearchFailed? <==> Call(listScript, |l.requests| - 1).HttpFailure?)
      && (r.SearchRaised? <==> Call(listScript, |l.requests| - 1).OtherFailure?)
      && (r.SearchFailed? ==> r == SearchError(Call(listScript, |l.requests| - 1).error))
  {
    PaginateContract(CombineQuery(query, newerThanDays, labelIds), maxResults, listScript);
  }

  /** A persistently rate-limited listing, retried by the client four
      times, is reported as `rate_limited`. */
  lemma RateLimitedSearch(query: string, maxResults: int, e: HttpError, getScript: seq<Outcome<MessageData>>)
    requires e.status == Some(429)
    ensures var client := ListMessages(CombineQuery(query, None, None), RequestedPageSize(maxResults), None,
                                       [HttpFailure(e), HttpFailure(e), HttpFailure(e), HttpFailure(e)]).1;
      Search(query, maxResults, None, None, [client.outcome], getScript) == SearchFailed(RateLimited, RateLimitMessage)
  {
    PersistentRateLimit<ListPage>(CombineQuery(query, None, None), RequestedPageSize(maxResults), None, e);
  }

  /** The loop state of the example below after each appended reference. */
  lemma DuplicateRefsExample(a: MessageRef, b: MessageRef, c: MessageRef, d: MessageRef)
    requires a.id == "1" && b.id == "2" && c.id == "3" && d.id == "4"
    ensures DedupBy([a, b, c], RefId) == [a, b, c]
    ensures DedupBy([a, b, c, b, c, d], RefId) == [a, b, c, d]
  {
    assert [a, b, c, b, c, d][..5] == [a, b, c, b, c];
    assert [a, b, c, b, c][..4] == [a, b, c, b];
    assert [a, b, c, b][..3] == [a, b, c];
    assert [a, b, c][..2] == [a, b];
    assert [a, b][..1] == [a];
    assert [a][..0] == [];
    assert DedupBy([a], RefId) == [a];
    KeySetSnoc([], a, RefId);
    KeySetSnoc([a], b, RefId);
    KeySetSnoc([a, b], c, RefId);
    assert DedupBy([a, b], RefId) == [a, b];
    assert DedupBy([a, b, c], RefId) == [a, b, c];
    assert "2" in KeySet([a, b, c], RefId) && "3" in KeySet([a, b, c], RefId);
    assert DedupBy([a, b, c, b, c], RefId) == [a, b, c];
    assert "4" !in KeySet([a, b, c], RefId);
  }

  /** Duplicates across pages are dropped: a page with ids `1, 2, 3` and a
      token, then a page with ids `2, 3, 4`, give four references in that
      order after two list calls, the second one sending the token. */
  lemma DuplicatesAcrossPages(query: string, e1: MessageEntry, e2: MessageEntry, e3: MessageEntry, e4: MessageEntry,
                              token: string, page1: ListPage, page2: ListPage)
    requires e1.id == Some("1") && e2.id == Some("2") && e3.id == Some("3") && e4.id == Some("4")
    requires page1 == ListPage([e1, e2, e3], Some(token)) && token != []
    requires page2 == ListPage([e2, e3, e4], None)
    ensures var l := Paginate(query, 10, [Return(page1), Return(page2)], 0, None, []);
      && l.result == Listed([RefOf(e1), RefOf(e2), RefOf(e3), RefOf(e4)])
      && |l.requests| == 2 && l.requests[1].pageToken == Some(token)
  {
    var a, b, c, d := RefOf(e1), RefOf(e2), RefOf(e3), RefOf(e4);
    NewRefsAllFilled(page1.messages);
    NewRefsAllFilled(page2.messages);
    assert NewRefs(page1.messages) == [a, b, c];
    DuplicateRefsExample(a, b, c, d);
    var s := [Return(page1), Return(page2)];
    FirstPageExample(query, s, token, a, b, c, page1);
    SecondPageExample(query, s, token, a, b, c, d, page2);
  }

  /** The first page of the example: three new references and a token. */
  lemma FirstPageExample(query: string, s: seq<Outcome<ListPage>>, token: string,
                         a: MessageRef, b: MessageRef, c: MessageRef, page1: ListPage)
    requires Call(s, 0) == Return(page1) && page1.nextPageToken == Some(token) && token != []
    requires NewRefs(page1.messages) == [a, b, c]
    requires DedupBy([a, b, c], RefId) == [a, b, c]
    ensures Paginate(query, 10, s, 0, None, [])
      == Listing(Paginate(query, 10, s, 1, Some(token), [a, b, c]).result,
                 [PageRequest(query, RequestedPageSize(10), None)] + Paginate(query, 10, s, 1, Some(token), [a, b, c]).requests)
  {
    assert [] + [a, b, c] == [a, b, c];
  }

  /** The second page of the example: three references already read, then
      the last page. */
  lemma SecondPageExample(query: string, s: seq<Outcome<ListPage>>, token: string,
                          a: MessageRef, b: MessageRef, c: MessageRef, d: MessageRef, page2: ListPage)
    requires Call(s, 1) == Return(page2) && page2.nextPageToken == None
    requires NewRefs(page2.messages) == [b, c, d]
    requires DedupBy([a, b, c, b, c, d], RefId) == [a, b, c, d]
    ensures Paginate(query, 10, s, 1, Some(token), [a, b, c])
      == Listing(Listed([a, b, c, d]), [PageRequest(query, RequestedPageSize(10), Some(token))])
  {
    assert [a, b, c] + [b, c, d] == [a, b, c, b, c, d];
  }

  // ---------------------------------------------------------------------------
  // gmail_get_message
  // ---------------------------------------------------------------------------

  /** A successful `gmail_get_message` reply; a body is `None` when its key
      is left out of the reply. */
  datatype MessageView = MessageView(
    id: string, threadId: string, headers: map<string, string>, snippet: string,
    bodyText: Option<string>, bodyHtml: Option<string>)

  datatype GetReply =
    | Message(view: MessageView)
    | GetFailed(error: ErrorTag, message: string)

  /** Gmail answers 404 for a missing message and 400 with "Invalid id" for
      a malformed id. */
  predicate IsNotFound(e: HttpError) {
    e.status == Some(404) || (e.status == Some(400) && Contains(e.text, "Invalid id"))
  }

  /** The `except HttpError` branch of `gmail_get_message`. */
  function GetError(messageId: string, e: HttpError): (r: GetReply)
    ensures r.GetFailed?
    ensures r.error == NotFound <==> IsNotFound(e)
    ensures r.error == AuthenticationError <==> e.status == Some(401)
    ensures r.error == RateLimited <==> e.status == Some(429)
    ensures r.error == ApiError <==> !IsNotFound(e) && e.status != Some(401) && e.status != Some(429)
  {
    if IsNotFound(e) then
      GetFailed(NotFound, "Message not found: " + messageId + ". Please check the message_id is correct.")
    else if e.status == Some(401) then GetFailed(AuthenticationError, AuthFailedMessage)
    else if e.status == Some(429) then GetFailed(RateLimited, RateLimitMessage)
    else GetFailed(ApiError, "Gmail API error: " + e.text)
  }

  /** A body key is set only when the decoded body is truthy. */
  function BodyKey(o: Option<string>): (r: Option<string>)
    ensures r.Some? <==> Filled(o)
    ensures r.Some? ==> r == o
  {
    if Filled(o) then o else None
  }

  /** The reply built from a successful `messages.get` response. */
  function MessageReply(fmt: string, msg: MessageData, dec: string -> Option<string>): MessageView {
    var payload := PayloadOf(msg);
    var bodies := if fmt == "full" then BodyOf(payload, dec) else Bodies(None, None);
    MessageView(msg.id.GetOr(""), msg.threadId.GetOr(""), HeaderDict(payload.headers), msg.snippet.GetOr(""),
      BodyKey(bodies.text), BodyKey(bodies.html))
  }

  /** `gmail_get_message` for the client's reply `outcome`. */
  function GetMessageReply(messageId: string, fmt: string, outcome: Outcome<MessageData>, dec: string -> Option<string>)
    : (r: GetReply)
    ensures r.Message? <==> outcome.Return?
    ensures r.GetFailed? ==> (r.error == UnknownError <==> outcome.OtherFailure?)
    ensures outcome.HttpFailure? ==> (r.error == NotFound <==> IsNotFound(outcome.error))
    ensures outcome.Return? ==> r.view.id == outcome.value.id.GetOr("") && r.view.snippet == outcome.value.snippet.GetOr("")
  {
    match outcome
    case Return(msg) => Message(MessageReply(fmt, msg, dec))
    case HttpFailure(e) => GetError(messageId, e)
    case OtherFailure(m) => GetFailed(UnknownError, "Unexpected error: " + m)
  }

  /** The method form of `gmail_get_message`: one client call, the header
      loop and, for the full format, the body walk. */
  method GetMessageTool(messageId: string, fmt: string, getScript: seq<Outcome<MessageData>>, dec: string -> Option<string>)
    returns (reply: GetReply, request: GetRequest)
    ensures reply == GetMessageReply(messageId, fmt, Call(getScript, 0), dec)
    ensures request == GetRequest("me", messageId, fmt)
  {
    request := GetRequest("me", messageId, fmt);
    var response := Call(getScript, 0);
    match response
    case HttpFailure(e) =>
      reply := GetError(messageId, e);
    case OtherFailure(m) =>
      reply := GetFailed(UnknownError, "Unexpected error: " + m);
    case Return(msg) =>
      var payload := PayloadOf(msg);
      var headerDict := BuildHeaderDict(payload.headers);
      var bodyText, bodyHtml := None, None;
      if fmt == "full" {
        var text, html := DecodeBody(payload, dec);
        if Filled(text) {
          bodyText := text;
        }
        if Filled(html) {
          bodyHtml := html;
        }
      }
      reply := Message(MessageView(msg.id.GetOr(""), msg.threadId.GetOr(""), headerDict, msg.snippet.GetOr(""), bodyText, bodyHtml));
  }

  /** What a successful reply promises: one header key per header name with
      the value of its last occurrence; no body for the metadata format;
      for the full format, a body key exactly when the walk found a
      non-empty body, holding the decoded data of a part of that type. */
  lemma MessageReplyContract(messageId: string, fmt: string, msg: MessageData, dec: string -> Option<string>)
    ensures var v := MessageReply(fmt, msg, dec);
      var headers := PayloadOf(msg).headers;
      && v.headers.Keys == (set i | 0 <= i < |headers| :: NameOf(headers[i]))
      && (forall i :: 0 <= i < |headers| &&
            (forall j :: i < j < |headers| ==> NameOf(headers[j]) != NameOf(headers[i]))
            ==> v.headers[NameOf(headers[i])] == ValueOf(headers[i]))
      && (fmt != "full" ==> v.bodyText.None? && v.bodyHtml.None?)
      && (fmt == "full" ==> (v.bodyText.Some? <==> Filled(BodyOf(PayloadOf(msg), dec).text)))
      && (fmt == "full" ==> (v.bodyHtml.Some? <==> Filled(BodyOf(PayloadOf(msg), dec).html)))
      && FromTree(v.bodyText, PayloadOf(msg), Plain, dec)
      && FromTree(v.bodyHtml, PayloadOf(msg), Html, dec)
  {
    HeaderDictLastWins(PayloadOf(msg).headers);
    BodyProvenance(PayloadOf(msg), Plain, dec);
    BodyProvenance(PayloadOf(msg), Html, dec);
  }

  /** A 404, or a 400 whose text says "Invalid id", is reported as
      `not_found`, after the retry loop has raised it at once. */
  lemma NotFoundReported(messageId: string, e: HttpError, dec: string -> Option<string>)
    requires IsNotFound(e)
    ensures var client := GetMessage<MessageData>(messageId, "full", [HttpFailure(e)]).1;
      client.calls == 1 &&
      GetMessageReply(messageId, "full", client.outcome, dec) ==
        GetFailed(NotFound, "Message not found: " + messageId + ". Please check the message_id is correct.")
  {
    NotRetried<MessageData>([HttpFailure(e)], MaxRetries, BackoffBase, 0);
  }
}
