/**
 * The body of `GET` in src/app/api/search/route.ts: the empty-query guard,
 * the choice of enabled sites, one downstream search per (site, variant)
 * pair, the all-or-nothing join of their outcomes, first-wins
 * de-duplication on the string key `${id}-${source}` and the yellow-word
 * filter. Configuration and the downstream searches are parameters.
 */
module SearchRoute {
  import opened Wrappers
  import opened Sequences
  import opened SearchResults
  import ChineseConverter

  /** A configured source: `SourceConfig` entries; `disabled` is false when the entry leaves it out. */
  datatype ApiSite = ApiSite(key: string, api: string, name: string, disabled: bool)

  /** What one downstream search settles to: its results, or a rejection. */
  datatype FetchOutcome = Fulfilled(items: seq<SearchResult>) | Rejected

  /** The handler's answer: `{ results }` with status 200, or `{ error }` with status 500. */
  datatype Response = Results(items: seq<SearchResult>) | SearchFailed

  // ----- Sites and the fan-out

  /** `SourceConfig.filter((site) => !site.disabled)`. */
  function EnabledSites(sites: seq<ApiSite>): (enabled: seq<ApiSite>)
    ensures forall s :: s in enabled <==> s in sites && !s.disabled
    ensures IsSubsequence(enabled, sites)
  {
    if sites == [] then []
    else
      var prefix, last := sites[..|sites| - 1], sites[|sites| - 1];
      var rest := EnabledSites(prefix);
      assert sites == prefix + [last];
      if last.disabled then
        SubsequenceExtend(rest, prefix, last);
        rest
      else
        assert (rest + [last])[..|rest|] == rest;
        rest + [last]
  }

  /** Each enabled site is kept as many times as it is configured; no disabled site is kept. */
  lemma {:induction false} EnabledSitesCounts(sites: seq<ApiSite>)
    ensures forall s :: multiset(EnabledSites(sites))[s] == if s.disabled then 0 else multiset(sites)[s]
  {
    if sites != [] {
      var prefix, last := sites[..|sites| - 1], sites[|sites| - 1];
      EnabledSitesCounts(prefix);
      assert sites == prefix + [last];
      assert multiset(sites) == multiset(prefix) + multiset{last};
    }
  }

  /**
   * The (site, variant) pairs of `apiSites.flatMap((site) =>
   * searchVariants.map((variant) => ...))`: sites outer, variants inner.
   */
  function Calls(sites: seq<ApiSite>, variants: seq<string>): seq<(ApiSite, string)> {
    if sites == [] then []
    else seq(|variants|, j requires 0 <= j < |variants| => (sites[0], variants[j])) + Calls(sites[1..], variants)
  }

  /** There is exactly one call per pair: `|sites| * |variants|` calls in all. */
  lemma {:induction false} CallsCount(sites: seq<ApiSite>, variants: seq<string>)
    ensures |Calls(sites, variants)| == |sites| * |variants|
  {
    if sites != [] {
      CallsCount(sites[1..], variants);
      assert |sites| * |variants| == |variants| + (|sites| - 1) * |variants|;
    }
  }

  /** The call at `i * |variants| + j` is the search of site `i` for variant `j`. */
  lemma {:induction false} CallAt(sites: seq<ApiSite>, variants: seq<string>, i: nat, j: nat)
    requires i < |sites| && j < |variants|
    ensures i * |variants| + j < |Calls(sites, variants)|
    ensures Calls(sites, variants)[i * |variants| + j] == (sites[i], variants[j])
    decreases i
  {
    var n := |variants|;
    var row := seq(n, j' requires 0 <= j' < n => (sites[0], variants[j']));
    assert Calls(sites, variants) == row + Calls(sites[1..], variants);
    if i > 0 {
      CallAt(sites[1..], variants, i - 1, j);
      assert i * n + j == n + ((i - 1) * n + j);
    }
  }

  /** Every call is for one of the sites and one of the variants. */
  lemma {:induction false} CallsArePairs(sites: seq<ApiSite>, variants: seq<string>)
    ensures forall c :: c in Calls(sites, variants) ==> c.0 in sites && c.1 in variants
  {
    if sites != [] {
      CallsArePairs(sites[1..], variants);
    }
  }

  /** Some call rejects exactly when the search of some site for some variant rejects. */
  lemma SomeCallRejects(sites: seq<ApiSite>, variants: seq<string>, search: (ApiSite, string) -> FetchOutcome)
    ensures (exists k :: 0 <= k < |Outcomes(Calls(sites, variants), search)| && Outcomes(Calls(sites, variants), search)[k].Rejected?)
            <==> exists s, v :: s in sites && v in variants && search(s, v).Rejected?
  {
    var calls := Calls(sites, variants);
    var outcomes := Outcomes(calls, search);
    if exists s, v :: s in sites && v in variants && search(s, v).Rejected? {
      var s, v :| s in sites && v in variants && search(s, v).Rejected?;
      var i :| 0 <= i < |sites| && sites[i] == s;
      var j :| 0 <= j < |variants| && variants[j] == v;
      CallAt(sites, variants, i, j);
      assert outcomes[i * |variants| + j].Rejected?;
    }
    if exists k :: 0 <= k < |outcomes| && outcomes[k].Rejected? {
      var k :| 0 <= k < |outcomes| && outcomes[k].Rejected?;
      CallsArePairs(sites, variants);
      assert calls[k] in calls;
    }
  }

  /** The outcome of each call, in call order: `Promise.all` keeps the order of its input. */
  function Outcomes(calls: seq<(ApiSite, string)>, search: (ApiSite, string) -> FetchOutcome): seq<FetchOutcome> {
    seq(|calls|, k requires 0 <= k < |calls| => search(calls[k].0, calls[k].1))
  }

  /** `Promise.all` followed by `.flat()`: the concatenated results, or nothing if any search rejected. */
  function JoinAll(outcomes: seq<FetchOutcome>): (joined: Option<seq<SearchResult>>)
    ensures joined.None? <==> exists k :: 0 <= k < |outcomes| && outcomes[k].Rejected?
  {
    if outcomes == [] then Some([])
    else
      var rest := JoinAll(outcomes[..|outcomes| - 1]);
      match outcomes[|outcomes| - 1]
      case Rejected => None
      case Fulfilled(items) =>
        assert forall k :: 0 <= k < |outcomes| - 1 ==> outcomes[..|outcomes| - 1][k] == outcomes[k];
        if rest.None? then None else Some(rest.value + items)
  }

  /** All results of a list of outcomes, in order. */
  function Flatten(outcomes: seq<FetchOutcome>): seq<SearchResult> {
    if outcomes == [] then []
    else
      var last := outcomes[|outcomes| - 1];
      Flatten(outcomes[..|outcomes| - 1]) + (if last.Fulfilled? then last.items else [])
  }

  /** When nothing rejects, the join is the concatenation of every result list, in call order. */
  lemma {:induction false} JoinAllConcatenates(outcomes: seq<FetchOutcome>)
    requires forall k :: 0 <= k < |outcomes| ==> outcomes[k].Fulfilled?
    ensures JoinAll(outcomes) == Some(Flatten(outcomes))
  {
    if outcomes != [] {
      JoinAllConcatenates(outcomes[..|outcomes| - 1]);
    }
  }

  // ----- De-duplication

  /** The template literal `${result.id}-${result.source}`. */
  function ResultKey(r: SearchResult): string {
    r.id + "-" + r.source
  }

  /**
   * The key is a string, not the pair: id `"a-b"` from source `"c"` and id
   * `"a"` from source `"b-c"` share the key `"a-b-c"`, and de-duplication
   * keeps only the first of them.
   */
  lemma KeyCollision(a: SearchResult, b: SearchResult)
    requires a.id == "a-b" && a.source == "c" && b.id == "a" && b.source == "b-c"
    ensures (a.id, a.source) != (b.id, b.source)
    ensures ResultKey(a) == ResultKey(b) == "a-b-c"
    ensures Dedup([a, b]) == [a]
  {
    assert [a, b][..1] == [a];
    assert [a][..0] == [];
    assert Dedup([a]) == [a];
    assert KeysOf([a]) == {ResultKey(a)};
    assert ResultKey(b) == ResultKey(a);
  }

  /** The keys of a list of results: the key set of `uniqueResults`. */
  function KeysOf(items: seq<SearchResult>): set<string> {
    if items == [] then {}
    else KeysOf(items[..|items| - 1]) + {ResultKey(items[|items| - 1])}
  }

  /** A key is in the key set exactly when some result of the list carries it. */
  lemma {:induction false} KeysOfMembers(items: seq<SearchResult>)
    ensures forall k :: k in KeysOf(items) <==> exists i :: 0 <= i < |items| && ResultKey(items[i]) == k
  {
    if items != [] {
      var prefix := items[..|items| - 1];
      KeysOfMembers(prefix);
      assert forall i :: 0 <= i < |prefix| ==> prefix[i] == items[i];
    }
  }

  /** The values of the `uniqueResults` map once every item has been offered to it, in insertion order. */
  function Dedup(items: seq<SearchResult>): seq<SearchResult> {
    if items == [] then []
    else
      var kept := Dedup(items[..|items| - 1]);
      var last := items[|items| - 1];
      if ResultKey(last) in KeysOf(kept) then kept else kept + [last]
  }

  /**
   * The `forEach` that fills `uniqueResults`. A key once set is never set
   * again, so the map's values in insertion order are the items kept, in
   * the order they were kept; `seen` is the map's key set.
   */
  method DedupByKey(items: seq<SearchResult>) returns (unique: seq<SearchResult>)
    ensures unique == Dedup(items)
  {
    var seen: set<string> := {};
    unique := [];
    for i := 0 to |items|
      invariant unique == Dedup(items[..i])
      invariant seen == KeysOf(unique)
    {
      var result := items[i];
      var key := ResultKey(result);
      assert items[..i + 1][..i] == items[..i];
      if key !in seen {
        KeysOfAppend(unique, result);
        seen := seen + {key};
        unique := unique + [result];
      }
    }
    assert items[..|items|] == items;
  }

  /** De-duplication keeps items of the input, in their input order. */
  lemma {:induction false} DedupIsSubsequence(items: seq<SearchResult>)
    ensures IsSubsequence(Dedup(items), items)
  {
    if items != [] {
      var prefix, last := items[..|items| - 1], items[|items| - 1];
      DedupIsSubsequence(prefix);
      var kept := Dedup(prefix);
      assert items == prefix + [last];
      if ResultKey(last) in KeysOf(kept) {
        SubsequenceExtend(kept, prefix, last);
      } else {
        assert (kept + [last])[..|kept|] == kept;
      }
    }
  }

  /** Appending an item adds its key. */
  lemma KeysOfAppend(items: seq<SearchResult>, r: SearchResult)
    ensures KeysOf(items + [r]) == KeysOf(items) + {ResultKey(r)}
  {
    assert (items + [r])[..|items|] == items;
  }

  /** No two results of the list share a key. */
  predicate DistinctResultKeys(items: seq<SearchResult>) {
    forall i, j :: 0 <= i < j < |items| ==> ResultKey(items[i]) != ResultKey(items[j])
  }

  /** De-duplication keeps no key twice. */
  lemma {:induction false} DedupDistinctKeys(items: seq<SearchResult>)
    ensures DistinctResultKeys(Dedup(items))
  {
    if items != [] {
      var prefix, last := items[..|items| - 1], items[|items| - 1];
      DedupDistinctKeys(prefix);
      var kept := Dedup(prefix);
      if ResultKey(last) !in KeysOf(kept) {
        DistinctKeysAppend(kept, last);
      }
    }
  }

  /** Appending a result with a new key keeps the keys distinct. */
  lemma DistinctKeysAppend(items: seq<SearchResult>, r: SearchResult)
    requires DistinctResultKeys(items) && ResultKey(r) !in KeysOf(items)
    ensures DistinctResultKeys(items + [r])
  {
    var extended := items + [r];
    forall i, j | 0 <= i < j < |extended|
      ensures ResultKey(extended[i]) != ResultKey(extended[j])
    {
      assert extended[i] == items[i];
      if j == |items| {
        KeysOfMembers(items);
        assert ResultKey(items[i]) in KeysOf(items);
      }
    }
  }

  /** De-duplication keeps every key of the input. */
  lemma {:induction false} DedupSameKeys(items: seq<SearchResult>)
    ensures KeysOf(Dedup(items)) == KeysOf(items)
  {
    if items != [] {
      var prefix, last := items[..|items| - 1], items[|items| - 1];
      DedupSameKeys(prefix);
      KeysOfAppend(Dedup(prefix), last);
    }
  }

  /** No item before index `i` carries the key of the item at `i`. */
  predicate FirstWithItsKey(items: seq<SearchResult>, i: int)
    requires 0 <= i < |items|
  {
    forall j :: 0 <= j < i ==> ResultKey(items[j]) != ResultKey(items[i])
  }

  /** `r` is the first item of `items` that carries its key. */
  predicate IsFirstWithItsKey(items: seq<SearchResult>, r: SearchResult) {
    exists i :: 0 <= i < |items| && items[i] == r && FirstWithItsKey(items, i)
  }

  /** Each item kept is the first item of the input that carries its key. */
  lemma {:induction false} DedupKeepsFirst(items: seq<SearchResult>)
    ensures forall r :: r in Dedup(items) ==> IsFirstWithItsKey(items, r)
  {
    if items != [] {
      var prefix, last := items[..|items| - 1], items[|items| - 1];
      var kept := Dedup(prefix);
      DedupKeepsFirst(prefix);
      forall r | r in Dedup(items)
        ensures IsFirstWithItsKey(items, r)
      {
        if r in kept {
          FirstInPrefix(items, r);
        } else {
          assert ResultKey(last) !in KeysOf(kept) && r == last;
          LastIsFirst(items);
        }
      }
    }
  }

  /** The first item with its key in all but the last item is the first in the whole list. */
  lemma FirstInPrefix(items: seq<SearchResult>, r: SearchResult)
    requires items != [] && IsFirstWithItsKey(items[..|items| - 1], r)
    ensures IsFirstWithItsKey(items, r)
  {
    var prefix := items[..|items| - 1];
    var i :| 0 <= i < |prefix| && prefix[i] == r && FirstWithItsKey(prefix, i);
    assert forall j :: 0 <= j <= i ==> prefix[j] == items[j];
    assert FirstWithItsKey(items, i);
  }

  /** The last item, whose key the de-duplicated rest lacks, is the first with its key. */
  lemma LastIsFirst(items: seq<SearchResult>)
    requires items != [] && ResultKey(items[|items| - 1]) !in KeysOf(Dedup(items[..|items| - 1]))
    ensures IsFirstWithItsKey(items, items[|items| - 1])
  {
    var prefix := items[..|items| - 1];
    DedupSameKeys(prefix);
    KeysOfMembers(prefix);
    assert forall j :: 0 <= j < |prefix| ==> ResultKey(prefix[j]) in KeysOf(prefix);
    assert forall j :: 0 <= j < |prefix| ==> prefix[j] == items[j];
    assert FirstWithItsKey(items, |items| - 1);
  }

  /**
   * The results among the first `n` items that are the first with their
   * key, in input order: an index-by-index reading of first-wins.
   */
  function FirstOccurrences(items: seq<SearchResult>, n: nat): seq<SearchResult>
    requires n <= |items|
  {
    if n == 0 then []
    else FirstOccurrences(items, n - 1) + (if FirstWithItsKey(items, n - 1) then [items[n - 1]] else [])
  }

  /**
   * De-duplication keeps exactly the items that are the first with their
   * key, in the order of those first occurrences.
   */
  lemma DedupIsFirstOccurrences(items: seq<SearchResult>)
    ensures Dedup(items) == FirstOccurrences(items, |items|)
  {
    DedupPrefixFirstOccurrences(items, |items|);
    assert items[..|items|] == items;
  }

  /** The invariant behind DedupIsFirstOccurrences, one prefix at a time. */
  lemma {:induction false} DedupPrefixFirstOccurrences(items: seq<SearchResult>, n: nat)
    requires n <= |items|
    ensures Dedup(items[..n]) == FirstOccurrences(items, n)
  {
    if n > 0 {
      var prefix := items[..n - 1];
      DedupPrefixFirstOccurrences(items, n - 1);
      assert items[..n][..n - 1] == prefix;
      assert items[..n][n - 1] == items[n - 1];
      KeptIffFirst(items, n);
    }
  }

  /** The item at `n - 1` has a key new to the de-duplicated prefix exactly when it is the first with its key. */
  lemma KeptIffFirst(items: seq<SearchResult>, n: nat)
    requires 0 < n <= |items|
    ensures ResultKey(items[n - 1]) in KeysOf(Dedup(items[..n - 1])) <==> !FirstWithItsKey(items, n - 1)
  {
    var prefix := items[..n - 1];
    DedupSameKeys(prefix);
    KeysOfMembers(prefix);
    assert forall j :: 0 <= j < n - 1 ==> prefix[j] == items[j];
  }

  /**
   * One title returned for two query variants: the repeat is dropped and
   * the order of first appearance kept.
   */
  lemma DedupRepeatedResult(a: SearchResult, b: SearchResult)
    requires ResultKey(a) != ResultKey(b)
    ensures Dedup([a, b, a]) == [a, b]
  {
    var items := [a, b, a];
    DedupIsFirstOccurrences(items);
    assert FirstWithItsKey(items, 0) && FirstWithItsKey(items, 1);
    assert items[0] == items[2];
    assert !FirstWithItsKey(items, 2);
    assert FirstOccurrences(items, 1) == [a];
    assert FirstOccurrences(items, 2) == [a, b];
  }

  /** De-duplicating a de-duplicated list changes nothing. */
  lemma {:induction false} DedupIdempotent(items: seq<SearchResult>)
    ensures Dedup(Dedup(items)) == Dedup(items)
  {
    DedupDistinctKeys(items);
    DistinctKeysDedupUnchanged(Dedup(items));
  }

  /** A list whose keys are pairwise distinct passes de-duplication unchanged. */
  lemma {:induction false} DistinctKeysDedupUnchanged(items: seq<SearchResult>)
    requires DistinctResultKeys(items)
    ensures Dedup(items) == items
  {
    if items != [] {
      var prefix, last := items[..|items| - 1], items[|items| - 1];
      DistinctKeysSplit(items);
      DistinctKeysDedupUnchanged(prefix);
      assert prefix + [last] == items;
    }
  }

  /**
   * Without its last item a list with pairwise distinct keys still has
   * them, and the last item's key is not among the others.
   */
  lemma DistinctKeysSplit(items: seq<SearchResult>)
    requires items != [] && DistinctResultKeys(items)
    ensures DistinctResultKeys(items[..|items| - 1])
    ensures ResultKey(items[|items| - 1]) !in KeysOf(items[..|items| - 1])
  {
    var prefix := items[..|items| - 1];
    KeysOfMembers(prefix);
    assert forall i :: 0 <= i < |prefix| ==> prefix[i] == items[i];
  }

  // ----- The handler

  /**
   * The response `GET` gives for the query parameter `q`, the configured
   * sites, the `DisableYellowFilter` flag, the yellow words and the
   * downstream search.
   */
  function SearchResponse(q: Option<string>, sites: seq<ApiSite>, disableYellowFilter: bool,
                          yellowWords: seq<string>, search: (ApiSite, string) -> FetchOutcome): Response
  {
    if q.None? || q.value == "" then Results([])
    else Respond(ChineseConverter.SearchVariants(q.value), sites, disableYellowFilter, yellowWords, search)
  }

  /** The response once the variants of a non-empty query are known. */
  function Respond(variants: seq<string>, sites: seq<ApiSite>, disableYellowFilter: bool,
                   yellowWords: seq<string>, search: (ApiSite, string) -> FetchOutcome): Response
  {
    match JoinAll(Outcomes(Calls(EnabledSites(sites), variants), search))
    case None => SearchFailed
    case Some(flattened) =>
      var unique := Dedup(flattened);
      Results(if disableYellowFilter then unique else DropBlocked(unique, yellowWords))
  }

  /**
   * The body of `GET`. A missing or empty query answers `results: []`
   * without a single search; otherwise a rejected search fails the whole
   * request, and the results are de-duplicated and, unless disabled,
   * filtered.
   */
  method Get(q: Option<string>, sites: seq<ApiSite>, disableYellowFilter: bool,
             yellowWords: seq<string>, search: (ApiSite, string) -> FetchOutcome)
    returns (response: Response)
    ensures response == SearchResponse(q, sites, disableYellowFilter, yellowWords, search)
    ensures q.None? || q == Some("") ==> response == Results([])
  {
    if q.None? || q.value == "" {
      return Results([]);
    }
    var apiSites := EnabledSites(sites);
    var searchVariants := ChineseConverter.GenerateSearchVariants(q.value);
    var outcomes := Outcomes(Calls(apiSites, searchVariants), search);
    var joined := JoinAll(outcomes);
    if joined.None? {
      return SearchFailed;
    }
    var flattened := DedupByKey(joined.value);
    if !disableYellowFilter {
      flattened := DropBlocked(flattened, yellowWords);
    }
    return Results(flattened);
  }

  /**
   * For a non-empty query, the request fails exactly when the search of
   * some enabled site for some variant rejects; there is no partial result.
   */
  lemma FailsIffSomeSearchRejects(q: string, sites: seq<ApiSite>, disableYellowFilter: bool,
                                  yellowWords: seq<string>, search: (ApiSite, string) -> FetchOutcome)
    requires q != ""
    ensures SearchResponse(Some(q), sites, disableYellowFilter, yellowWords, search).SearchFailed?
            <==> exists s, v :: s in sites && !s.disabled && v in ChineseConverter.SearchVariants(q)
                                && search(s, v).Rejected?
  {
    var variants := ChineseConverter.SearchVariants(q);
    RespondFailsIff(variants, sites, disableYellowFilter, yellowWords, search);
    assert SearchResponse(Some(q), sites, disableYellowFilter, yellowWords, search)
           == Respond(variants, sites, disableYellowFilter, yellowWords, search);
  }

  /** FailsIffSomeSearchRejects for any list of variants. */
  lemma RespondFailsIff(variants: seq<string>, sites: seq<ApiSite>, disableYellowFilter: bool,
                        yellowWords: seq<string>, search: (ApiSite, string) -> FetchOutcome)
    ensures Respond(variants, sites, disableYellowFilter, yellowWords, search).SearchFailed?
            <==> exists s, v :: s in sites && !s.disabled && v in variants && search(s, v).Rejected?
  {
    var enabled := EnabledSites(sites);
    SomeCallRejects(enabled, variants, search);
    var failed := Respond(variants, sites, disableYellowFilter, yellowWords, search).SearchFailed?;
    assert failed <==> JoinAll(Outcomes(Calls(enabled, variants), search)).None?;
    if exists s, v :: s in sites && !s.disabled && v in variants && search(s, v).Rejected? {
      var s, v :| s in sites && !s.disabled && v in variants && search(s, v).Rejected?;
      assert s in enabled;
    }
  }

  /**
   * For a non-empty query whose searches all succeed, the results are the
   * de-duplicated concatenation of the per-pair results, filtered unless
   * the filter is disabled.
   */
  lemma ResultsWhenAllSucceed(q: string, sites: seq<ApiSite>, disableYellowFilter: bool,
                              yellowWords: seq<string>, search: (ApiSite, string) -> FetchOutcome)
    requires q != ""
    requires forall s, v :: s in sites && !s.disabled && v in ChineseConverter.SearchVariants(q) ==> search(s, v).Fulfilled?
    ensures var flattened := Flatten(Outcomes(Calls(EnabledSites(sites), ChineseConverter.SearchVariants(q)), search));
            SearchResponse(Some(q), sites, disableYellowFilter, yellowWords, search)
            == Results(if disableYellowFilter then Dedup(flattened) else DropBlocked(Dedup(flattened), yellowWords))
  {
    var variants := ChineseConverter.SearchVariants(q);
    RespondWhenAllSucceed(variants, sites, disableYellowFilter, yellowWords, search);
    assert SearchResponse(Some(q), sites, disableYellowFilter, yellowWords, search)
           == Respond(variants, sites, disableYellowFilter, yellowWords, search);
  }

  /** ResultsWhenAllSucceed for any list of variants. */
  lemma RespondWhenAllSucceed(variants: seq<string>, sites: seq<ApiSite>, disableYellowFilter: bool,
                              yellowWords: seq<string>, search: (ApiSite, string) -> FetchOutcome)
    requires forall s, v :: s in sites && !s.disabled && v in variants ==> search(s, v).Fulfilled?
    ensures var flattened := Flatten(Outcomes(Calls(EnabledSites(sites), variants), search));
            Respond(variants, sites, disableYellowFilter, yellowWords, search)
            == Results(if disableYellowFilter then Dedup(flattened) else DropBlocked(Dedup(flattened), yellowWords))
  {
    var calls := Calls(EnabledSites(sites), variants);
    var outcomes := Outcomes(calls, search);
    CallsArePairs(EnabledSites(sites), variants);
    assert forall k :: 0 <= k < |outcomes| ==> outcomes[k].Fulfilled? by {
      forall k | 0 <= k < |outcomes|
        ensures outcomes[k].Fulfilled?
      {
        assert calls[k] in calls;
      }
    }
    JoinAllConcatenates(outcomes);
  }
}
