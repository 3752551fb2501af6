/**
 * The search result record shared by the search route and the search page,
 * and the type-name blacklist filter both of them apply
 * (src/app/api/search/route.ts and src/app/search/page.tsx).
 */
module SearchResults {
  import opened Wrappers
  import opened JsStrings
  import opened Sequences

  /**
   * One entry returned by a source. `typeName` is `type_name`, which a
   * source may leave out; `episodes` is the list of episode links.
   */
  datatype SearchResult = SearchResult(
    id: string,
    title: string,
    poster: string,
    episodes: seq<string>,
    source: string,
    sourceName: string,
    year: string,
    typeName: Option<string>)

  /** `result.type_name || ''`: a missing type name reads as the empty string. */
  function TypeNameOrEmpty(r: SearchResult): string {
    match r.typeName
    case None => ""
    case Some(name) => name
  }

  /** `yellowWords.some((word) => typeName.includes(word))`. */
  predicate Blocked(r: SearchResult, yellowWords: seq<string>) {
    exists i :: 0 <= i < |yellowWords| && Includes(TypeNameOrEmpty(r), yellowWords[i])
  }

  /**
   * The filter that drops every result whose type name includes a yellow
   * word: the survivors are the results that are not blocked, in their
   * original order and with their fields untouched (DropBlockedCounts says
   * how many copies of each survive).
   */
  function DropBlocked(items: seq<SearchResult>, yellowWords: seq<string>): (kept: seq<SearchResult>)
    ensures forall r :: r in kept <==> r in items && !Blocked(r, yellowWords)
    ensures IsSubsequence(kept, items)
  {
    if items == [] then []
    else
      var prefix, last := items[..|items| - 1], items[|items| - 1];
      var rest := DropBlocked(prefix, yellowWords);
      assert items == prefix + [last];
      if Blocked(last, yellowWords) then
        SubsequenceExtend(rest, prefix, last);
        rest
      else
        assert (rest + [last])[..|rest|] == rest;
        rest + [last]
  }

  /** Each result that is not blocked survives as many times as it occurs; no blocked one survives. */
  lemma {:induction false} DropBlockedCounts(items: seq<SearchResult>, yellowWords: seq<string>)
    ensures forall r :: multiset(DropBlocked(items, yellowWords))[r]
                        == if Blocked(r, yellowWords) then 0 else multiset(items)[r]
  {
    if items != [] {
      var prefix, last := items[..|items| - 1], items[|items| - 1];
      DropBlockedCounts(prefix, yellowWords);
      assert items == prefix + [last];
      assert multiset(items) == multiset(prefix) + multiset{last};
    }
  }

  /** No result of the list is blocked. */
  predicate NoneBlocked(items: seq<SearchResult>, yellowWords: seq<string>) {
    forall i :: 0 <= i < |items| ==> !Blocked(items[i], yellowWords)
  }

  /** The filter keeps the whole list exactly when no result in it is blocked. */
  lemma DropBlockedKeepsAll(items: seq<SearchResult>, yellowWords: seq<string>)
    ensures DropBlocked(items, yellowWords) == items <==> NoneBlocked(items, yellowWords)
  {
    var kept := DropBlocked(items, yellowWords);
    if kept == items {
      forall i | 0 <= i < |items|
        ensures !Blocked(items[i], yellowWords)
      {
        assert items[i] in kept;
      }
    }
    if NoneBlocked(items, yellowWords) {
      DropBlockedNoneBlocked(items, yellowWords);
    }
  }

  /** A list with nothing blocked passes the filter unchanged. */
  lemma {:induction false} DropBlockedNoneBlocked(items: seq<SearchResult>, yellowWords: seq<string>)
    requires NoneBlocked(items, yellowWords)
    ensures DropBlocked(items, yellowWords) == items
  {
    if items != [] {
      var prefix, last := items[..|items| - 1], items[|items| - 1];
      assert NoneBlocked(prefix, yellowWords) by {
        forall i | 0 <= i < |prefix|
          ensures !Blocked(prefix[i], yellowWords)
        {
          assert prefix[i] == items[i];
        }
      }
      DropBlockedNoneBlocked(prefix, yellowWords);
      assert !Blocked(last, yellowWords);
      assert items == prefix + [last];
    }
  }

  /** A missing or empty type name is blocked only by an empty yellow word. */
  lemma EmptyTypeNameBlockedOnlyByEmptyWord(r: SearchResult, yellowWords: seq<string>)
    requires TypeNameOrEmpty(r) == ""
    ensures Blocked(r, yellowWords) <==> "" in yellowWords
  {
    if "" in yellowWords {
      var i :| 0 <= i < |yellowWords| && yellowWords[i] == "";
      IncludesSelfAndEmpty(TypeNameOrEmpty(r));
    }
  }

  /** An empty yellow word removes every result, since every string includes it. */
  lemma EmptyWordBlocksEverything(items: seq<SearchResult>, yellowWords: seq<string>)
    requires "" in yellowWords
    ensures DropBlocked(items, yellowWords) == []
  {
    var i :| 0 <= i < |yellowWords| && yellowWords[i] == "";
    forall r | r in items
      ensures Blocked(r, yellowWords)
    {
      IncludesSelfAndEmpty(TypeNameOrEmpty(r));
    }
  }

  /** Filtering twice is filtering once. */
  lemma {:induction false} DropBlockedIdempotent(items: seq<SearchResult>, yellowWords: seq<string>)
    ensures DropBlocked(DropBlocked(items, yellowWords), yellowWords) == DropBlocked(items, yellowWords)
  {
    var kept := DropBlocked(items, yellowWords);
    assert forall i :: 0 <= i < |kept| ==> kept[i] in kept;
    DropBlockedKeepsAll(kept, yellowWords);
  }
}
