/**
 * The result handling of the search page (src/app/search/page.tsx): the
 * grouping of results under a title/year/kind key, the comparators that
 * order groups and single results, the client-side yellow-word filter and
 * the normalisation of a typed query. `localeCompare` is the parameter
 * `lc`, which returns a negative number, zero or a positive number.
 */
module SearchPage {
  import opened Wrappers
  import opened JsStrings
  import opened Sequences
  import opened SearchResults
  import Sorting

  // ----- Group keys

  /** `s.replaceAll(' ', '')`: only U+0020 is removed, other whitespace stays. */
  function StripSpaces(s: string): string {
    ReplaceAll(s, " ", "")
  }

  /** `s` without its U+0020 characters, the other characters in order. */
  function WithoutSpaces(s: string): (r: string)
    ensures forall c :: c in r <==> c in s && c != ' '
  {
    if s == [] then []
    else (if s[0] == ' ' then [] else [s[0]]) + WithoutSpaces(s[1..])
  }

  /** Replacing every `' '` by nothing removes exactly the U+0020 characters. */
  lemma {:induction false} StripSpacesRemovesSpaces(s: string)
    ensures StripSpaces(s) == WithoutSpaces(s)
    decreases |s|
  {
    if s != [] {
      StripSpacesRemovesSpaces(s[1..]);
      assert s[..1] == [s[0]];
    }
  }

  /** `item.year || 'unknown'`: an empty year reads as `'unknown'`. */
  function YearOrUnknown(year: string): string {
    if year == "" then "unknown" else year
  }

  /** `'movie'` for a single episode, `'tv'` otherwise. */
  function Kind(r: SearchResult): string {
    if |r.episodes| == 1 then "movie" else "tv"
  }

  /** The grouping key `${title without spaces}-${year || 'unknown'}-${kind}`. */
  function GroupKey(r: SearchResult): string {
    StripSpaces(r.title) + "-" + YearOrUnknown(r.year) + "-" + Kind(r)
  }

  /** A character `0`-`9`. */
  predicate IsDigit(c: char) {
    '0' <= c <= '9'
  }

  /** A year as the results carry it: four digits, or `'unknown'`. */
  predicate WellFormedYear(year: string) {
    year == "unknown" || (|year| == 4 && forall i :: 0 <= i < 4 ==> IsDigit(year[i]))
  }

  /** From `a + c == b + d` with `|c| == |d|`, both halves agree. */
  lemma SplitAtEnd(a: string, b: string, c: string, d: string)
    requires a + c == b + d && |c| == |d|
    ensures a == b && c == d
  {
    assert a == (a + c)[..|a|] && b == (b + d)[..|b|];
    assert c == (a + c)[|a|..] && d == (b + d)[|b|..];
  }

  /** Results of different kinds never share a group: the keys end in `e` and in `v`. */
  lemma KindsSeparateGroups(a: SearchResult, b: SearchResult)
    requires |a.episodes| == 1 && |b.episodes| != 1
    ensures GroupKey(a) != GroupKey(b)
  {
    var ka, kb := GroupKey(a), GroupKey(b);
    assert ka[|ka| - 1] == 'e';
    assert kb[|kb| - 1] == 'v';
  }

  /**
   * With well-formed years, two results share a group key exactly when
   * their titles agree once spaces are removed, their years agree and
   * their kinds agree.
   */
  lemma GroupKeyIdentifies(a: SearchResult, b: SearchResult)
    requires WellFormedYear(YearOrUnknown(a.year)) && WellFormedYear(YearOrUnknown(b.year))
    ensures GroupKey(a) == GroupKey(b)
            <==> StripSpaces(a.title) == StripSpaces(b.title)
                 && YearOrUnknown(a.year) == YearOrUnknown(b.year) && Kind(a) == Kind(b)
  {
    if GroupKey(a) == GroupKey(b) {
      var ta, tb := StripSpaces(a.title), StripSpaces(b.title);
      var ya, yb := YearOrUnknown(a.year), YearOrUnknown(b.year);
      if Kind(a) != Kind(b) {
        if |a.episodes| == 1 {
          KindsSeparateGroups(a, b);
        } else {
          KindsSeparateGroups(b, a);
        }
      }
      SplitAtEnd(ta + "-" + ya + "-", tb + "-" + yb + "-", Kind(a), Kind(b));
      SplitAtEnd(ta + "-" + ya, tb + "-" + yb, "-", "-");
      var ua, ub := ta + "-" + ya, tb + "-" + yb;
      assert ua[|ua| - 1] == ya[|ya| - 1] && ub[|ub| - 1] == yb[|yb| - 1];
      assert |ya| == |yb|;
      SplitAtEnd(ta + "-", tb + "-", ya, yb);
      SplitAtEnd(ta, tb, "-", "-");
    }
  }

  // ----- Grouping

  /** One entry of `map`: a key and the results pushed under it, in order. */
  datatype Group = Group(key: string, first: SearchResult, rest: seq<SearchResult>) {
    /** The array stored under the key. */
    function Members(): seq<SearchResult> {
      [first] + rest
    }
  }

  /** Some group has key `key`. */
  predicate HasGroup(groups: seq<Group>, key: string) {
    exists i :: 0 <= i < |groups| && groups[i].key == key
  }

  /** No two groups have the same key, as in every `Map`. */
  predicate DistinctGroupKeys(groups: seq<Group>) {
    forall i, j :: 0 <= i < j < |groups| ==> groups[i].key != groups[j].key
  }

  /** The position of the group with key `key`: `map.get(key)`. */
  function GroupIndex(groups: seq<Group>, key: string): (i: nat)
    requires HasGroup(groups, key)
    ensures i < |groups| && groups[i].key == key
    ensures forall j :: 0 <= j < i ==> groups[j].key != key
  {
    if groups[0].key == key then 0
    else
      assert HasGroup(groups[1..], key) by {
        var i :| 0 <= i < |groups| && groups[i].key == key;
        assert groups[1..][i - 1].key == key;
      }
      1 + GroupIndex(groups[1..], key)
  }

  /**
   * `arr = map.get(key) || []; arr.push(item); map.set(key, arr)`: the
   * item joins the end of the group with its key, or starts a new group at
   * the end of the map.
   */
  function AddToGroup(groups: seq<Group>, key: string, item: SearchResult): (r: seq<Group>)
    ensures HasGroup(groups, key) ==> |r| == |groups|
    ensures !HasGroup(groups, key) ==> r == groups + [Group(key, item, [])]
    ensures DistinctGroupKeys(groups) ==>
              forall i :: 0 <= i < |groups| ==>
                r[i] == if groups[i].key == key then groups[i].(rest := groups[i].rest + [item]) else groups[i]
    ensures forall i :: 0 <= i < |groups| ==> r[i].key == groups[i].key
    ensures HasGroup(r, key)
    ensures DistinctGroupKeys(groups) ==> DistinctGroupKeys(r)
  {
    if HasGroup(groups, key) then
      var i := GroupIndex(groups, key);
      groups[i := groups[i].(rest := groups[i].rest + [item])]
    else
      var r := groups + [Group(key, item, [])];
      assert r[|groups|].key == key;
      r
  }

  /** The entries of `map` after the `forEach` over `items`. */
  function Grouped(items: seq<SearchResult>): seq<Group> {
    if items == [] then []
    else
      var last := items[|items| - 1];
      AddToGroup(Grouped(items[..|items| - 1]), GroupKey(last), last)
  }

  /** The grouping loop of `aggregatedResults`. */
  method GroupResults(items: seq<SearchResult>) returns (groups: seq<Group>)
    ensures groups == Grouped(items)
  {
    groups := [];
    for i := 0 to |items|
      invariant groups == Grouped(items[..i])
    {
      var item := items[i];
      assert items[..i + 1][..i] == items[..i];
      groups := AddToGroup(groups, GroupKey(item), item);
    }
    assert items[..|items|] == items;
  }

  /** The results of `items` whose group key is `key`, in their input order. */
  function WithKey(items: seq<SearchResult>, key: string): (r: seq<SearchResult>)
    ensures forall x :: x in r <==> x in items && GroupKey(x) == key
    ensures r == [] <==> forall i :: 0 <= i < |items| ==> GroupKey(items[i]) != key
  {
    if items == [] then []
    else
      var prefix, last := items[..|items| - 1], items[|items| - 1];
      assert items == prefix + [last];
      WithKey(prefix, key) + (if GroupKey(last) == key then [last] else [])
  }

  /** Grouping never gives two groups the same key. */
  lemma {:induction false} GroupKeysDistinct(items: seq<SearchResult>)
    ensures DistinctGroupKeys(Grouped(items))
  {
    if items != [] {
      GroupKeysDistinct(items[..|items| - 1]);
    }
  }

  /** Every result's key has a group. */
  lemma {:induction false} EveryKeyGrouped(items: seq<SearchResult>)
    ensures forall x :: x in items ==> HasGroup(Grouped(items), GroupKey(x))
  {
    if items != [] {
      var prefix, last := items[..|items| - 1], items[|items| - 1];
      var key := GroupKey(last);
      EveryKeyGrouped(prefix);
      var before, after := Grouped(prefix), Grouped(items);
      assert after == AddToGroup(before, key, last);
      forall x | x in items
        ensures HasGroup(after, GroupKey(x))
      {
        if x != last {
          assert x in prefix by {
            assert items == prefix + [last];
          }
          AddToGroupKeepsGroups(before, key, last, GroupKey(x));
        }
      }
    }
  }

  /** Adding an item never removes a group. */
  lemma AddToGroupKeepsGroups(groups: seq<Group>, key: string, item: SearchResult, k: string)
    requires HasGroup(groups, k)
    ensures HasGroup(AddToGroup(groups, key, item), k)
  {
    var i :| 0 <= i < |groups| && groups[i].key == k;
    assert AddToGroup(groups, key, item)[i].key == k;
  }

  /** The group under a key holds exactly the results with that key, in their input order. */
  lemma {:induction false} GroupMembersAreWithKey(items: seq<SearchResult>)
    ensures forall i :: 0 <= i < |Grouped(items)| ==> Grouped(items)[i].Members() == WithKey(items, Grouped(items)[i].key)
  {
    if items != [] {
      var prefix, last := items[..|items| - 1], items[|items| - 1];
      var key := GroupKey(last);
      GroupMembersAreWithKey(prefix);
      forall i | 0 <= i < |Grouped(items)|
        ensures Grouped(items)[i].Members() == WithKey(items, Grouped(items)[i].key)
      {
        GroupMembersStep(items, i);
      }
    }
  }

  /** The inductive step of GroupMembersAreWithKey, for the group at index `i`. */
  lemma GroupMembersStep(items: seq<SearchResult>, i: int)
    requires items != []
    requires 0 <= i < |Grouped(items)|
    requires var prefix := items[..|items| - 1];
             i < |Grouped(prefix)| ==> Grouped(prefix)[i].Members() == WithKey(prefix, Grouped(prefix)[i].key)
    ensures Grouped(items)[i].Members() == WithKey(items, Grouped(items)[i].key)
  {
    var prefix, last := items[..|items| - 1], items[|items| - 1];
    GroupKeysDistinct(prefix);
    var g := Grouped(items)[i];
    assert WithKey(items, g.key) == WithKey(prefix, g.key) + (if GroupKey(last) == g.key then [last] else []);
    if i < |Grouped(prefix)| {
      OldGroupStep(Grouped(prefix), GroupKey(last), last, i);
    } else {
      assert g == Group(GroupKey(last), last, []);
      EveryKeyGrouped(prefix);
      NoGroupNoMembers(prefix, GroupKey(last));
    }
  }

  /** A group that already existed gains the item exactly when the item's key is its key. */
  lemma OldGroupStep(groups: seq<Group>, key: string, item: SearchResult, i: int)
    requires DistinctGroupKeys(groups) && 0 <= i < |groups|
    ensures i < |AddToGroup(groups, key, item)|
    ensures AddToGroup(groups, key, item)[i].key == groups[i].key
    ensures AddToGroup(groups, key, item)[i].Members()
            == groups[i].Members() + (if key == groups[i].key then [item] else [])
  {
    var r := AddToGroup(groups, key, item);
    if groups[i].key == key {
      assert r[i] == groups[i].(rest := groups[i].rest + [item]);
    }
  }

  /** A key without a group has no results. */
  lemma NoGroupNoMembers(items: seq<SearchResult>, key: string)
    requires forall x :: x in items ==> HasGroup(Grouped(items), GroupKey(x))
    requires !HasGroup(Grouped(items), key)
    ensures WithKey(items, key) == []
  {
  }

  /**
   * Each result is a member of exactly one group, the one under its own key.
   */
  lemma EachResultInOneGroup(items: seq<SearchResult>, x: SearchResult)
    requires x in items
    ensures exists i :: 0 <= i < |Grouped(items)| && x in Grouped(items)[i].Members()
    ensures forall i, j :: (0 <= i < |Grouped(items)| && 0 <= j < |Grouped(items)|
                            && x in Grouped(items)[i].Members() && x in Grouped(items)[j].Members()) ==> i == j
  {
    GroupKeysDistinct(items);
    EveryKeyGrouped(items);
    GroupMembersAreWithKey(items);
    var groups := Grouped(items);
    var i :| 0 <= i < |groups| && groups[i].key == GroupKey(x);
    assert x in WithKey(items, groups[i].key);
  }

  /**
   * Results with the same space-stripped title and year but different
   * kinds form two groups: `"A B"` with one episode and `"AB"` with five.
   */
  lemma DifferentKindsTwoGroups(a: SearchResult, b: SearchResult)
    requires a.title == "A B" && b.title == "AB" && a.year == "2020" && b.year == "2020"
    requires |a.episodes| == 1 && |b.episodes| == 5
    ensures StripSpaces(a.title) == StripSpaces(b.title)
    ensures |Grouped([a, b])| == 2
  {
    assert StripSpaces(a.title) == StripSpaces(b.title) by {
      StripSpacesRemovesSpaces(a.title);
      StripSpacesRemovesSpaces(b.title);
      assert WithoutSpaces("A B") == "AB";
      assert WithoutSpaces("AB") == "AB";
    }
    KindsSeparateGroups(a, b);
    GroupedTwo(a, b);
  }

  /** Two results with different keys form two groups of one member each, in input order. */
  lemma GroupedTwo(a: SearchResult, b: SearchResult)
    requires GroupKey(a) != GroupKey(b)
    ensures Grouped([a, b]) == [Group(GroupKey(a), a, []), Group(GroupKey(b), b, [])]
  {
    assert [a, b][..1] == [a];
    assert Grouped([a]) == [Group(GroupKey(a), a, [])] by {
      assert [a][..0] == [];
    }
    assert !HasGroup(Grouped([a]), GroupKey(b));
  }

  // ----- Ordering groups

  /** `title.replaceAll(' ', '').includes(searchQuery.trim().replaceAll(' ', ''))` for the group's first member. */
  predicate GroupBoosted(g: Group, query: string) {
    Includes(StripSpaces(g.first.title), StripSpaces(Trim(query)))
  }

  /**
   * The branches both comparators share: an item that passes the match
   * test goes before one that does not; then equal years fall back to
   * `tie` (the `localeCompare` result); then `'unknown'` goes last; then
   * the later year, as `aYearLater` says, goes first.
   */
  function RankedOrder(aMatches: bool, bMatches: bool, aYear: string, bYear: string, tie: int, aYearLater: bool): int {
    if aMatches && !bMatches then -1
    else if !aMatches && bMatches then 1
    else if aYear == bYear then tie
    else if aYear == "unknown" && bYear == "unknown" then 0
    else if aYear == "unknown" then 1
    else if bYear == "unknown" then -1
    else if aYearLater then -1
    else 1
  }

  /**
   * The shared branches tie only on equal match results and equal years
   * with a tie from `localeCompare`: the branch for two different
   * `'unknown'` years is never reached.
   */
  lemma RankedOrderTies(aMatches: bool, bMatches: bool, aYear: string, bYear: string, tie: int, aYearLater: bool)
    requires RankedOrder(aMatches, bMatches, aYear, bYear, tie, aYearLater) == 0
    ensures aMatches == bMatches && aYear == bYear && tie == 0
  {
  }

  /**
   * The shared branches answer consistently in both directions when the
   * tie-break does and when, of two different known years, exactly one is
   * the later.
   */
  lemma RankedOrderAntisymmetric(aMatches: bool, bMatches: bool, aYear: string, bYear: string,
                                 tieAB: int, tieBA: int, aYearLater: bool, bYearLater: bool)
    requires tieAB > 0 <==> tieBA < 0
    requires aYear != bYear && aYear != "unknown" && bYear != "unknown" ==> aYearLater != bYearLater
    ensures RankedOrder(aMatches, bMatches, aYear, bYear, tieAB, aYearLater) > 0
            <==> RankedOrder(bMatches, aMatches, bYear, aYear, tieBA, bYearLater) < 0
  {
  }

  /**
   * The rank the shared branches respect above all: matching items (0, 1)
   * before the others (2, 3), and within each, known years before
   * `'unknown'`.
   */
  function Rank(matches: bool, year: string): int {
    (if matches then 0 else 2) + (if year == "unknown" then 1 else 0)
  }

  /** An item of higher rank always compares after an item of lower rank. */
  lemma RankedOrderRespectsRank(aMatches: bool, bMatches: bool, aYear: string, bYear: string, tie: int, aYearLater: bool)
    requires Rank(aMatches, aYear) > Rank(bMatches, bYear)
    ensures RankedOrder(aMatches, bMatches, aYear, bYear, tie, aYearLater) > 0
  {
  }

  /** The comparator of `aggregatedResults`' sort, on the groups' keys and first members. */
  function CompareGroups(a: Group, b: Group, query: string, lc: (string, string) -> int): int {
    RankedOrder(GroupBoosted(a, query), GroupBoosted(b, query), a.first.year, b.first.year,
                lc(a.key, b.key), LexLess(b.first.year, a.first.year))
  }

  /**
   * The group comparator answers consistently in both directions whenever
   * `localeCompare` does on the two keys, whatever the years are.
   */
  lemma CompareGroupsAntisymmetric(a: Group, b: Group, query: string, lc: (string, string) -> int)
    requires lc(a.key, b.key) > 0 <==> lc(b.key, a.key) < 0
    ensures CompareGroups(a, b, query, lc) > 0 <==> CompareGroups(b, a, query, lc) < 0
  {
    LexLessTrichotomy(a.first.year, b.first.year);
    RankedOrderAntisymmetric(GroupBoosted(a, query), GroupBoosted(b, query), a.first.year, b.first.year,
                             lc(a.key, b.key), lc(b.key, a.key),
                             LexLess(b.first.year, a.first.year), LexLess(a.first.year, b.first.year));
  }

  /**
   * Two groups tie only when their years are equal and `localeCompare`
   * ties their keys: the branch for two different `'unknown'` years is
   * never reached.
   */
  lemma CompareGroupsTies(a: Group, b: Group, query: string, lc: (string, string) -> int)
    requires CompareGroups(a, b, query, lc) == 0
    ensures GroupBoosted(a, query) == GroupBoosted(b, query)
    ensures a.first.year == b.first.year && lc(a.key, b.key) == 0
  {
    RankedOrderTies(GroupBoosted(a, query), GroupBoosted(b, query), a.first.year, b.first.year,
                    lc(a.key, b.key), LexLess(b.first.year, a.first.year));
  }

  /**
   * Among groups tied on the boost, of two different known years the one
   * greater by string comparison goes first.
   */
  lemma CompareGroupsByYear(a: Group, b: Group, query: string, lc: (string, string) -> int)
    requires GroupBoosted(a, query) == GroupBoosted(b, query)
    requires a.first.year != b.first.year && a.first.year != "unknown" && b.first.year != "unknown"
    ensures CompareGroups(a, b, query, lc) < 0 <==> LexLess(b.first.year, a.first.year)
    ensures CompareGroups(a, b, query, lc) != 0
  {
  }

  /** The rank the group comparator respects above all: boosted groups first, `'unknown'` years last. */
  function GroupRank(g: Group, query: string): int {
    Rank(GroupBoosted(g, query), g.first.year)
  }

  /** A group of higher rank always compares after a group of lower rank. */
  lemma GroupRankOrders(a: Group, b: Group, query: string, lc: (string, string) -> int)
    requires GroupRank(a, query) > GroupRank(b, query)
    ensures CompareGroups(a, b, query, lc) > 0
  {
    RankedOrderRespectsRank(GroupBoosted(a, query), GroupBoosted(b, query), a.first.year, b.first.year,
                            lc(a.key, b.key), LexLess(b.first.year, a.first.year));
  }

  // ----- Ordering single results

  /** The longest prefix of `s` made of decimal digits. */
  function LeadingDigits(s: string): (ds: string)
    ensures |ds| <= |s| && ds == s[..|ds|]
    ensures forall i :: 0 <= i < |ds| ==> IsDigit(ds[i])
    ensures |ds| < |s| ==> !IsDigit(s[|ds|])
  {
    if s == [] || !IsDigit(s[0]) then []
    else [s[0]] + LeadingDigits(s[1..])
  }

  /** The number a string of decimal digits denotes. */
  function DigitsValue(ds: string): nat
    requires forall i :: 0 <= i < |ds| ==> IsDigit(ds[i])
  {
    if ds == [] then 0
    else
      assert IsDigit(ds[|ds| - 1]);
      10 * DigitsValue(ds[..|ds| - 1]) + (ds[|ds| - 1] as int - '0' as int)
  }

  /**
   * `parseInt(s)` for a string that starts with its digits: the value of
   * its leading digits, or None (`NaN`) when it has none.
   */
  function ParseInt(s: string): (n: Option<nat>)
    ensures n.None? <==> s == [] || !IsDigit(s[0])
  {
    var ds := LeadingDigits(s);
    if ds == [] then None else Some(DigitsValue(ds))
  }

  /** `x > y` on numbers where `NaN` compares false with everything. */
  predicate Greater(x: Option<nat>, y: Option<nat>) {
    x.Some? && y.Some? && x.value > y.value
  }

  /** The comparator of the flat results' sort, for the submitted `query`. */
  function CompareResults(a: SearchResult, b: SearchResult, query: string, lc: (string, string) -> int): int {
    RankedOrder(a.title == Trim(query), b.title == Trim(query), a.year, b.year,
                lc(a.title, b.title), Greater(ParseInt(a.year), ParseInt(b.year)))
  }

  /** Digit strings of the same length denote the same number only when they are the same string. */
  lemma {:induction false} DigitsValueInjective(x: string, y: string)
    requires |x| == |y|
    requires forall i :: 0 <= i < |x| ==> IsDigit(x[i])
    requires forall i :: 0 <= i < |y| ==> IsDigit(y[i])
    ensures DigitsValue(x) == DigitsValue(y) ==> x == y
  {
    if x != [] && DigitsValue(x) == DigitsValue(y) {
      var x', y' := x[..|x| - 1], y[..|y| - 1];
      DigitsValueInjective(x', y');
      var dx, dy := x[|x| - 1] as int - '0' as int, y[|y| - 1] as int - '0' as int;
      assert 10 * DigitsValue(x') + dx == 10 * DigitsValue(y') + dy;
      assert DigitsValue(x') == DigitsValue(y') && dx == dy;
      assert x == x' + [x[|x| - 1]] && y == y' + [y[|y| - 1]];
    }
  }

  /** The leading digits of digits followed by a non-digit, or by nothing, are those digits. */
  lemma {:induction false} LeadingDigitsOf(ds: string, rest: string)
    requires forall i :: 0 <= i < |ds| ==> IsDigit(ds[i])
    requires rest == [] || !IsDigit(rest[0])
    ensures LeadingDigits(ds + rest) == ds
  {
    if ds != [] {
      LeadingDigitsOf(ds[1..], rest);
      assert (ds + rest)[1..] == ds[1..] + rest;
    }
  }

  /** A four-digit year parses to the number it spells. */
  lemma ParseFourDigits(year: string)
    requires |year| == 4 && forall i :: 0 <= i < 4 ==> IsDigit(year[i])
    ensures ParseInt(year) == Some(DigitsValue(year))
  {
    LeadingDigitsOf(year, []);
    assert year + [] == year;
  }

  /**
   * With well-formed years the flat comparator answers consistently in
   * both directions whenever `localeCompare` does on the two titles.
   */
  lemma CompareResultsAntisymmetric(a: SearchResult, b: SearchResult, query: string, lc: (string, string) -> int)
    requires WellFormedYear(a.year) && WellFormedYear(b.year)
    requires lc(a.title, b.title) > 0 <==> lc(b.title, a.title) < 0
    ensures CompareResults(a, b, query, lc) > 0 <==> CompareResults(b, a, query, lc) < 0
  {
    var aLater, bLater := Greater(ParseInt(a.year), ParseInt(b.year)), Greater(ParseInt(b.year), ParseInt(a.year));
    if a.year != b.year && a.year != "unknown" && b.year != "unknown" {
      ParseFourDigits(a.year);
      ParseFourDigits(b.year);
      DigitsValueInjective(a.year, b.year);
      assert aLater != bLater;
    }
    RankedOrderAntisymmetric(a.title == Trim(query), b.title == Trim(query), a.year, b.year,
                             lc(a.title, b.title), lc(b.title, a.title), aLater, bLater);
  }

  /**
   * Without well-formed years the flat comparator is not antisymmetric:
   * `parseInt` reads a year such as `"2020"` and the same year followed by
   * a letter, `"2020a"`, as the same number, so each result is put after
   * the other.
   */
  lemma CompareResultsNeedsWellFormedYears(a: SearchResult, b: SearchResult, query: string, lc: (string, string) -> int)
    requires |a.year| == 4 && forall i :: 0 <= i < 4 ==> IsDigit(a.year[i])
    requires b.year == a.year + "a" && a.title == b.title
    ensures CompareResults(a, b, query, lc) == 1 && CompareResults(b, a, query, lc) == 1
  {
    LeadingDigitsOf(a.year, "a");
    ParseFourDigits(a.year);
    assert a.year != "unknown" && b.year != "unknown" && a.year != b.year by {
      assert |b.year| == 5;
    }
  }

  /**
   * Two results tie only when their years are equal and `localeCompare`
   * ties their titles: the branch for two different `'unknown'` years is
   * never reached.
   */
  lemma CompareResultsTies(a: SearchResult, b: SearchResult, query: string, lc: (string, string) -> int)
    requires CompareResults(a, b, query, lc) == 0
    ensures (a.title == Trim(query)) == (b.title == Trim(query))
    ensures a.year == b.year && lc(a.title, b.title) == 0
  {
    RankedOrderTies(a.title == Trim(query), b.title == Trim(query), a.year, b.year,
                    lc(a.title, b.title), Greater(ParseInt(a.year), ParseInt(b.year)));
  }

  /**
   * Among results tied on the exact-title test, of two different
   * well-formed known years the numerically larger goes first.
   */
  lemma CompareResultsByYear(a: SearchResult, b: SearchResult, query: string, lc: (string, string) -> int)
    requires (a.title == Trim(query)) == (b.title == Trim(query))
    requires WellFormedYear(a.year) && WellFormedYear(b.year)
    requires a.year != b.year && a.year != "unknown" && b.year != "unknown"
    ensures CompareResults(a, b, query, lc) < 0 <==> DigitsValue(a.year) > DigitsValue(b.year)
  {
    ParseFourDigits(a.year);
    ParseFourDigits(b.year);
  }

  /** The rank the flat comparator respects above all: titles equal to the trimmed query first, `'unknown'` years last. */
  function ResultRank(r: SearchResult, query: string): int {
    Rank(r.title == Trim(query), r.year)
  }

  /** A result of higher rank always compares after a result of lower rank. */
  lemma ResultRankOrders(a: SearchResult, b: SearchResult, query: string, lc: (string, string) -> int)
    requires ResultRank(a, query) > ResultRank(b, query)
    ensures CompareResults(a, b, query, lc) > 0
  {
    RankedOrderRespectsRank(a.title == Trim(query), b.title == Trim(query), a.year, b.year,
                            lc(a.title, b.title), Greater(ParseInt(a.year), ParseInt(b.year)));
  }

  // ----- Sorting in place

  /** The flat comparator for one submitted query, as `results.sort` receives it. */
  function ResultOrder(query: string, lc: (string, string) -> int): (SearchResult, SearchResult) -> int {
    (a, b) => CompareResults(a, b, query, lc)
  }

  /** The group comparator for one query, as `Array.from(map.entries()).sort` receives it. */
  function GroupOrder(query: string, lc: (string, string) -> int): (Group, Group) -> int {
    (a, b) => CompareGroups(a, b, query, lc)
  }

  /** `localeCompare` answers consistently in both directions. */
  ghost predicate ConsistentCollation(lc: (string, string) -> int) {
    forall x, y :: lc(x, y) > 0 <==> lc(y, x) < 0
  }

  /** With well-formed years, the flat comparator is antisymmetric on any list. */
  lemma ResultOrderAntisymmetric(xs: seq<SearchResult>, query: string, lc: (string, string) -> int)
    requires forall r :: r in xs ==> WellFormedYear(r.year)
    requires ConsistentCollation(lc)
    ensures Sorting.Antisymmetric(ResultOrder(query, lc), xs)
  {
    forall x, y | x in xs && y in xs
      ensures CompareResults(x, y, query, lc) > 0 <==> CompareResults(y, x, query, lc) < 0
    {
      CompareResultsAntisymmetric(x, y, query, lc);
    }
  }

  /** The flat comparator puts every result of higher rank after every result of lower rank. */
  lemma ResultOrderRanks(xs: seq<SearchResult>, query: string, lc: (string, string) -> int)
    ensures forall x, y :: x in xs && y in xs && ResultRank(x, query) > ResultRank(y, query) ==> ResultOrder(query, lc)(x, y) > 0
  {
    forall x, y | x in xs && y in xs && ResultRank(x, query) > ResultRank(y, query)
      ensures CompareResults(x, y, query, lc) > 0
    {
      ResultRankOrders(x, y, query, lc);
    }
  }

  /** The group comparator is antisymmetric on any list. */
  lemma GroupOrderAntisymmetric(gs: seq<Group>, query: string, lc: (string, string) -> int)
    requires ConsistentCollation(lc)
    ensures Sorting.Antisymmetric(GroupOrder(query, lc), gs)
  {
    forall x, y | x in gs && y in gs
      ensures CompareGroups(x, y, query, lc) > 0 <==> CompareGroups(y, x, query, lc) < 0
    {
      CompareGroupsAntisymmetric(x, y, query, lc);
    }
  }

  /** The group comparator puts every group of higher rank after every group of lower rank. */
  lemma GroupOrderRanks(gs: seq<Group>, query: string, lc: (string, string) -> int)
    ensures forall x, y :: x in gs && y in gs && GroupRank(x, query) > GroupRank(y, query) ==> GroupOrder(query, lc)(x, y) > 0
  {
    forall x, y | x in gs && y in gs && GroupRank(x, query) > GroupRank(y, query)
      ensures CompareGroups(x, y, query, lc) > 0
    {
      GroupRankOrders(x, y, query, lc);
    }
  }

  /**
   * The body of `fetchSearchResults` after the response arrives: the
   * yellow-word filter unless `DISABLE_YELLOW_FILTER` is set, then the
   * sort. The array holds the surviving results, no two neighbours out of
   * order; titles equal to the trimmed query come first, and within each
   * part, `'unknown'` years come last.
   */
  method RankResults(results: seq<SearchResult>, query: string, lc: (string, string) -> int,
                     disableYellowFilter: bool, yellowWords: seq<string>)
    returns (ranked: array<SearchResult>)
    requires forall r :: r in results ==> WellFormedYear(r.year)
    requires ConsistentCollation(lc)
    ensures var kept := if disableYellowFilter then results else DropBlocked(results, yellowWords);
            multiset(ranked[..]) == multiset(kept)
    ensures Sorting.AdjacentSorted(ranked[..], ResultOrder(query, lc))
    ensures forall i, j :: 0 <= i <= j < ranked.Length ==> ResultRank(ranked[i], query) <= ResultRank(ranked[j], query)
  {
    var kept := results;
    if !disableYellowFilter {
      kept := DropBlocked(results, yellowWords);
    }
    ranked := new SearchResult[|kept|](i requires 0 <= i < |kept| => kept[i]);
    assert ranked[..] == kept;
    var cmp := ResultOrder(query, lc);
    ResultOrderAntisymmetric(kept, query, lc);
    Sorting.Sort(ranked, cmp);
    ResultOrderRanks(ranked[..], query, lc);
    Sorting.RanksAscend(ranked[..], cmp, (r: SearchResult) => ResultRank(r, query));
  }

  /**
   * `aggregatedResults`: the results grouped, then the groups sorted. The
   * array holds the groups, no two neighbours out of order; boosted groups
   * come first, and within each part, `'unknown'` years come last.
   */
  method AggregateResults(results: seq<SearchResult>, query: string, lc: (string, string) -> int)
    returns (sorted: array<Group>)
    requires ConsistentCollation(lc)
    ensures multiset(sorted[..]) == multiset(Grouped(results))
    ensures Sorting.AdjacentSorted(sorted[..], GroupOrder(query, lc))
    ensures forall i, j :: 0 <= i <= j < sorted.Length ==> GroupRank(sorted[i], query) <= GroupRank(sorted[j], query)
  {
    var groups := GroupResults(results);
    sorted := new Group[|groups|](i requires 0 <= i < |groups| => groups[i]);
    assert sorted[..] == groups;
    var cmp := GroupOrder(query, lc);
    GroupOrderAntisymmetric(groups, query, lc);
    Sorting.Sort(sorted, cmp);
    GroupOrderRanks(sorted[..], query, lc);
    Sorting.RanksAscend(sorted[..], cmp, (g: Group) => GroupRank(g, query));
  }

  // ----- Query normalisation

  /** The characters of `s` that are not whitespace, in order. */
  function NonWhitespace(s: string): string {
    if s == [] then []
    else (if IsWhitespace(s[0]) then [] else [s[0]]) + NonWhitespace(s[1..])
  }

  /**
   * A string in the normal form: each whitespace character is a space
   * followed by a character that is not whitespace.
   */
  predicate Collapsed(s: string) {
    forall i :: 0 <= i < |s| && IsWhitespace(s[i]) ==> s[i] == ' ' && i + 1 < |s| && !IsWhitespace(s[i + 1])
  }

  /** Dropping leading whitespace keeps the characters that are not whitespace. */
  lemma {:induction false} TrimStartKeepsNonWhitespace(s: string)
    ensures NonWhitespace(TrimStart(s)) == NonWhitespace(s)
    decreases |s|
  {
    if |s| > 0 && IsWhitespace(s[0]) {
      TrimStartKeepsNonWhitespace(s[1..]);
    }
  }

  /**
   * `s.replace(/\s+/g, ' ')`: every run of whitespace becomes one space
   * (`\s` and `trim` agree on what whitespace is). The result is empty
   * only for the empty string and starts as `s` does.
   */
  function CollapseWhitespace(s: string): (r: string)
    ensures r == [] <==> s == []
    ensures s != [] && !IsWhitespace(s[0]) ==> r[0] == s[0]
    ensures s != [] && IsWhitespace(s[0]) ==> r[0] == ' '
    decreases |s|
  {
    if s == [] then []
    else if IsWhitespace(s[0]) then [' '] + CollapseWhitespace(TrimStart(s))
    else [s[0]] + CollapseWhitespace(s[1..])
  }

  /** Collapsing keeps every character that is not whitespace, in order. */
  lemma {:induction false} CollapseKeepsNonWhitespace(s: string)
    ensures NonWhitespace(CollapseWhitespace(s)) == NonWhitespace(s)
    decreases |s|
  {
    if s != [] {
      if IsWhitespace(s[0]) {
        var rest := CollapseWhitespace(TrimStart(s));
        CollapseKeepsNonWhitespace(TrimStart(s));
        TrimStartKeepsNonWhitespace(s);
        assert ([' '] + rest)[1..] == rest;
      } else {
        var rest := CollapseWhitespace(s[1..]);
        CollapseKeepsNonWhitespace(s[1..]);
        assert ([s[0]] + rest)[1..] == rest;
      }
    }
  }

  /** A string that does not end in whitespace collapses to the normal form. */
  lemma {:induction false} CollapseNormalForm(s: string)
    requires s == [] || !IsWhitespace(s[|s| - 1])
    ensures Collapsed(CollapseWhitespace(s))
    decreases |s|
  {
    if s != [] {
      if IsWhitespace(s[0]) {
        var t := TrimStart(s);
        CollapseNormalForm(t);
        var rest := CollapseWhitespace(t);
        assert rest != [] && !IsWhitespace(rest[0]);
        CollapsedCons(' ', rest);
      } else {
        CollapseNormalForm(s[1..]);
        CollapsedCons(s[0], CollapseWhitespace(s[1..]));
      }
    }
  }

  /** A character put before a string in the normal form keeps it so, unless it is whitespace the form forbids. */
  lemma CollapsedCons(c: char, s: string)
    requires Collapsed(s)
    requires IsWhitespace(c) ==> c == ' ' && s != [] && !IsWhitespace(s[0])
    ensures Collapsed([c] + s)
  {
    var r := [c] + s;
    forall i | 0 <= i < |r| && IsWhitespace(r[i])
      ensures r[i] == ' ' && i + 1 < |r| && !IsWhitespace(r[i + 1])
    {
      if i > 0 {
        assert r[i] == s[i - 1];
      }
    }
  }

  /** Every suffix of a string in the normal form is in the normal form. */
  lemma CollapsedTail(s: string)
    requires s != [] && Collapsed(s)
    ensures Collapsed(s[1..])
  {
    var tail := s[1..];
    forall i | 0 <= i < |tail| && IsWhitespace(tail[i])
      ensures tail[i] == ' ' && i + 1 < |tail| && !IsWhitespace(tail[i + 1])
    {
      assert tail[i] == s[i + 1];
    }
  }

  /** A string already in the normal form is left as it is. */
  lemma {:induction false} CollapseFixesCollapsed(s: string)
    requires Collapsed(s)
    ensures CollapseWhitespace(s) == s
    decreases |s|
  {
    if s != [] {
      var tail := s[1..];
      CollapsedTail(s);
      CollapseFixesCollapsed(tail);
      CollapseKeepsHead(s);
    }
  }

  /** A string in the normal form whose tail collapses to itself collapses to itself. */
  lemma CollapseKeepsHead(s: string)
    requires s != [] && Collapsed(s) && CollapseWhitespace(s[1..]) == s[1..]
    ensures CollapseWhitespace(s) == s
  {
    if IsWhitespace(s[0]) {
      assert s[0] == ' ' && !IsWhitespace(s[1]);
      assert TrimStart(s[1..]) == s[1..];
      assert s == [' '] + s[1..];
    } else {
      assert s == [s[0]] + s[1..];
    }
  }

  // ----- Words

  /** `s` is all whitespace. */
  predicate AllSpace(s: string) {
    forall k :: 0 <= k < |s| ==> IsWhitespace(s[k])
  }

  /** A word: a non-empty run of characters none of which is whitespace. */
  predicate IsWord(w: string) {
    w != [] && forall k :: 0 <= k < |w| ==> !IsWhitespace(w[k])
  }

  /**
   * The words of `s`: its maximal runs of characters that are not
   * whitespace, in order. Read from the right, a character that is not
   * whitespace is a word of its own when nothing or whitespace follows it,
   * and otherwise becomes the first character of the word that follows.
   */
  function Words(s: string): (ws: seq<string>)
    ensures s != [] && !IsWhitespace(s[0]) ==> ws != []
    decreases |s|
  {
    if s == [] then []
    else
      var rest := Words(s[1..]);
      if IsWhitespace(s[0]) then rest
      else if |s| == 1 || IsWhitespace(s[1]) then [[s[0]]] + rest
      else [[s[0]] + rest[0]] + rest[1..]
  }

  /** The words, with one space between each two. */
  function JoinWithSpace(ws: seq<string>): string {
    if ws == [] then []
    else if |ws| == 1 then ws[0]
    else ws[0] + " " + JoinWithSpace(ws[1..])
  }

  /** One space for whitespace at the start of `s`. */
  function LeadingSpace(s: string): string {
    if s != [] && IsWhitespace(s[0]) then " " else ""
  }

  /** One space for whitespace at the end of `s` that follows a word. */
  function TrailingSpace(s: string): string {
    if s != [] && IsWhitespace(s[|s| - 1]) && Words(s) != [] then " " else ""
  }

  /** Every word is a word: non-empty and free of whitespace. */
  lemma {:induction false} WordsAreWords(s: string)
    ensures forall i :: 0 <= i < |Words(s)| ==> IsWord(Words(s)[i])
    decreases |s|
  {
    if s != [] {
      var rest := Words(s[1..]);
      WordsAreWords(s[1..]);
      var ws := Words(s);
      if !IsWhitespace(s[0]) {
        if |s| == 1 || IsWhitespace(s[1]) {
          forall i | 0 <= i < |ws|
            ensures IsWord(ws[i])
          {
            if i > 0 {
              assert ws[i] == rest[i - 1];
            }
          }
        } else {
          assert rest != [];
          forall i | 0 <= i < |ws|
            ensures IsWord(ws[i])
          {
            if i > 0 {
              assert ws[i] == rest[i];
            } else {
              var w := [s[0]] + rest[0];
              assert IsWord(rest[0]);
              forall k | 0 <= k < |w|
                ensures !IsWhitespace(w[k])
              {
                if k > 0 {
                  assert w[k] == rest[0][k - 1];
                }
              }
            }
          }
        }
      }
    }
  }

  /** A string has no words exactly when it is all whitespace. */
  lemma {:induction false} WordsEmpty(s: string)
    ensures Words(s) == [] <==> AllSpace(s)
    decreases |s|
  {
    if s != [] {
      WordsEmpty(s[1..]);
      assert AllSpace(s) <==> IsWhitespace(s[0]) && AllSpace(s[1..]) by {
        if IsWhitespace(s[0]) && AllSpace(s[1..]) {
          forall k | 0 <= k < |s|
            ensures IsWhitespace(s[k])
          {
            if k > 0 {
              assert s[k] == s[1..][k - 1];
            }
          }
        }
        if AllSpace(s) {
          forall k | 0 <= k < |s| - 1
            ensures IsWhitespace(s[1..][k])
          {
            assert s[1..][k] == s[k + 1];
          }
        }
      }
    }
  }

  /** Leading whitespace does not change the words. */
  lemma {:induction false} WordsTrimStart(s: string)
    ensures Words(TrimStart(s)) == Words(s)
    decreases |s|
  {
    if s != [] && IsWhitespace(s[0]) {
      WordsTrimStart(s[1..]);
    }
  }

  /** Whitespace at the end does not change the words. */
  lemma {:induction false} WordsTrailingWhitespace(u: string, v: string)
    requires AllSpace(v)
    ensures Words(u + v) == Words(u)
    decreases |u|
  {
    if u == [] {
      assert u + v == v;
      WordsEmpty(v);
    } else {
      DropAppend(u, v, 1);
      WordsTrailingWhitespace(u[1..], v);
      assert (u + v)[0] == u[0];
      if |u| == 1 {
        assert u[1..] + v == v;
        WordsEmpty(v);
        assert |u + v| == 1 || IsWhitespace((u + v)[1]);
      } else {
        assert (u + v)[1] == u[1];
      }
    }
  }

  /** What `TrimEnd` drops is whitespace. */
  lemma TrimEndRest(s: string)
    ensures s == TrimEnd(s) + s[|TrimEnd(s)|..]
    ensures AllSpace(s[|TrimEnd(s)|..])
  {
    var r := TrimEnd(s);
    Split(s, |r|);
    forall k | 0 <= k < |s| - |r|
      ensures IsWhitespace(s[|r|..][k])
    {
      assert s[|r|..][k] == s[|r| + k];
    }
  }

  /** Trimming does not change the words. */
  lemma WordsTrim(s: string)
    ensures Words(Trim(s)) == Words(s)
  {
    var t := TrimStart(s);
    WordsTrimStart(s);
    var r := TrimEnd(t);
    TrimEndRest(t);
    WordsTrailingWhitespace(r, t[|r|..]);
  }

  /** Joining a word before a list puts one space between them, unless the list is empty. */
  lemma JoinCons(w: string, ws: seq<string>)
    ensures JoinWithSpace([w] + ws) == if ws == [] then w else w + " " + JoinWithSpace(ws)
  {
    DropPast([w], ws, 1);
  }

  /** Putting a character before the first of some words puts it before their joining. */
  lemma JoinPrepend(c: char, ws: seq<string>)
    requires ws != []
    ensures JoinWithSpace([[c] + ws[0]] + ws[1..]) == [c] + JoinWithSpace(ws)
  {
    var w, rest := ws[0], ws[1..];
    HeadTail(ws);
    JoinCons([c] + w, rest);
    JoinCons(w, rest);
    if rest != [] {
      AppendAssoc([c], w, " ");
      AppendAssoc([c], w + " ", JoinWithSpace(rest));
    }
  }

  /**
   * `replace(/\s+/g, ' ')` turns each maximal run of whitespace into one
   * space: the result is the words of `s` joined by single spaces, with one
   * more space in front when `s` starts with whitespace and one more at the
   * end when `s` ends with whitespace after a word.
   */
  lemma {:induction false} CollapseWhitespaceWords(s: string)
    ensures CollapseWhitespace(s) == LeadingSpace(s) + JoinWithSpace(Words(s)) + TrailingSpace(s)
    decreases |s|
  {
    if s != [] {
      if IsWhitespace(s[0]) {
        CollapseWhitespaceWords(TrimStart(s));
        CollapseSpaceStep(s);
      } else {
        CollapseWhitespaceWords(s[1..]);
        CollapseConsWords(s, s[1..]);
      }
    }
  }

  /** The step of CollapseWhitespaceWords for a first character that is whitespace. */
  lemma CollapseSpaceStep(s: string)
    requires s != [] && IsWhitespace(s[0])
    requires var t := TrimStart(s);
      CollapseWhitespace(t) == LeadingSpace(t) + JoinWithSpace(Words(t)) + TrailingSpace(t)
    ensures CollapseWhitespace(s) == LeadingSpace(s) + JoinWithSpace(Words(s)) + TrailingSpace(s)
  {
    var t := TrimStart(s);
    WordsTrimStart(s);
    assert t != [] ==> t[|t| - 1] == s[|s| - 1] by {
      if t != [] {
        assert t == s[|s| - |t|..];
      }
    }
    CollapseSpaceWords(s, t);
  }

  /** CollapseSpaceStep, `t` being what follows the leading whitespace. */
  lemma CollapseSpaceWords(s: string, t: string)
    requires s != [] && CollapseWhitespace(s) == " " + CollapseWhitespace(t)
    requires LeadingSpace(s) == " " && LeadingSpace(t) == ""
    requires t != [] ==> t[|t| - 1] == s[|s| - 1]
    requires Words(t) == Words(s)
    requires CollapseWhitespace(t) == LeadingSpace(t) + JoinWithSpace(Words(t)) + TrailingSpace(t)
    ensures CollapseWhitespace(s) == LeadingSpace(s) + JoinWithSpace(Words(s)) + TrailingSpace(s)
  {
    var j, trail := JoinWithSpace(Words(s)), TrailingSpace(s);
    assert TrailingSpace(t) == trail;
    assert CollapseWhitespace(t) == j + trail by {
      assert LeadingSpace(t) + j == j;
    }
    AppendAssoc(" ", j, trail);
    assert CollapseWhitespace(s) == LeadingSpace(s) + j + trail;
  }

  /** The step of CollapseWhitespaceWords for a first character that is not whitespace. */
  lemma CollapseConsWords(s: string, t: string)
    requires s != [] && !IsWhitespace(s[0]) && t == s[1..]
    requires CollapseWhitespace(t) == LeadingSpace(t) + JoinWithSpace(Words(t)) + TrailingSpace(t)
    ensures CollapseWhitespace(s) == LeadingSpace(s) + JoinWithSpace(Words(s)) + TrailingSpace(s)
  {
    var c, ct := s[0], CollapseWhitespace(t);
    var j, trail := JoinWithSpace(Words(s)), TrailingSpace(s);
    assert CollapseWhitespace(s) == [c] + ct;
    if t == [] {
      assert Words(s) == [[c]];
      assert ct == [];
    } else if IsWhitespace(t[0]) {
      assert ct == " " + JoinWithSpace(Words(t)) + TrailingSpace(t);
      ConsWordsBeforeSpace(s, t);
    } else {
      assert ct == JoinWithSpace(Words(t)) + TrailingSpace(t) by {
        assert LeadingSpace(t) + JoinWithSpace(Words(t)) == JoinWithSpace(Words(t));
      }
      ConsWordsInWord(s, t);
    }
    assert [c] + ct == j + trail;
    assert LeadingSpace(s) + j == j;
  }

  /** CollapseConsWords when whitespace follows the first character. */
  lemma ConsWordsBeforeSpace(s: string, t: string)
    requires s != [] && !IsWhitespace(s[0]) && t == s[1..] && t != [] && IsWhitespace(t[0])
    ensures [s[0]] + (" " + JoinWithSpace(Words(t)) + TrailingSpace(t)) == JoinWithSpace(Words(s)) + TrailingSpace(s)
  {
    var c := s[0];
    assert Words(s) == [[c]] + Words(t);
    assert s[|s| - 1] == t[|t| - 1];
    JoinCons([c], Words(t));
    if Words(t) == [] {
      WordsEmpty(t);
      assert TrailingSpace(s) == " ";
      assert TrailingSpace(t) == "";
    } else {
      var j := JoinWithSpace(Words(t));
      assert TrailingSpace(s) == TrailingSpace(t);
      AppendAssoc([c], " " + j, TrailingSpace(t));
      AppendAssoc([c], " ", j);
    }
  }

  /** CollapseConsWords when the first character starts a longer word. */
  lemma ConsWordsInWord(s: string, t: string)
    requires s != [] && !IsWhitespace(s[0]) && t == s[1..] && t != [] && !IsWhitespace(t[0])
    ensures [s[0]] + (JoinWithSpace(Words(t)) + TrailingSpace(t)) == JoinWithSpace(Words(s)) + TrailingSpace(s)
  {
    var c := s[0];
    assert Words(s) == [[c] + Words(t)[0]] + Words(t)[1..];
    JoinPrepend(c, Words(t));
    assert s[|s| - 1] == t[|t| - 1];
    assert TrailingSpace(s) == TrailingSpace(t);
    AppendAssoc([c], JoinWithSpace(Words(t)), TrailingSpace(t));
  }

  /** A word followed by whitespace, or by nothing, is the first of the words. */
  lemma {:induction false} WordsOfWord(w: string, v: string)
    requires IsWord(w)
    requires v == [] || IsWhitespace(v[0])
    ensures Words(w + v) == [w] + Words(v)
    decreases |w|
  {
    var s := w + v;
    DropAppend(w, v, 1);
    assert s[0] == w[0];
    if |w| == 1 {
      assert s[1..] == v;
      assert |s| == 1 || IsWhitespace(s[1]);
      assert w == [w[0]];
    } else {
      var tail := w[1..];
      assert IsWord(tail) by {
        forall k | 0 <= k < |tail|
          ensures !IsWhitespace(tail[k])
        {
          assert tail[k] == w[k + 1];
        }
      }
      WordsOfWord(tail, v);
      assert s[1] == w[1];
      HeadTail(w);
      DropPast([tail], Words(v), 1);
    }
  }

  /** A space before a string that starts with a word does not change its words. */
  lemma SpaceBeforeWords(j: string)
    ensures Words([' '] + j) == Words(j)
  {
    DropPast([' '], j, 1);
  }

  /** Splitting words joined by single spaces gives the words back. */
  lemma {:induction false} WordsOfJoin(ws: seq<string>)
    requires forall i :: 0 <= i < |ws| ==> IsWord(ws[i])
    ensures Words(JoinWithSpace(ws)) == ws
    decreases |ws|
  {
    if ws != [] {
      var w := ws[0];
      assert IsWord(w);
      if |ws| == 1 {
        WordsOfWord(w, []);
        assert w + [] == w;
        assert ws == [w];
      } else {
        var rest := ws[1..];
        assert forall i :: 0 <= i < |rest| ==> IsWord(rest[i]) by {
          forall i | 0 <= i < |rest|
            ensures IsWord(rest[i])
          {
            assert rest[i] == ws[i + 1];
          }
        }
        var j := JoinWithSpace(rest);
        WordsOfJoin(rest);
        AppendAssoc(w, " ", j);
        WordsOfWord(w, [' '] + j);
        SpaceBeforeWords(j);
        HeadTail(ws);
      }
    }
  }

  // ----- Query normalisation, continued

  /** The characters of `a + b` that are not whitespace are those of `a`, then those of `b`. */
  lemma {:induction false} NonWhitespaceAppend(a: string, b: string)
    ensures NonWhitespace(a + b) == NonWhitespace(a) + NonWhitespace(b)
    decreases |a|
  {
    if a == [] {
      assert a + b == b;
    } else {
      DropAppend(a, b, 1);
      assert (a + b)[0] == a[0];
      NonWhitespaceAppend(a[1..], b);
      var x := if IsWhitespace(a[0]) then [] else [a[0]];
      assert NonWhitespace(a + b) == x + NonWhitespace(a[1..] + b);
      AppendAssoc(x, NonWhitespace(a[1..]), NonWhitespace(b));
    }
  }

  /** A string of whitespace has no other characters. */
  lemma {:induction false} AllWhitespace(s: string)
    requires AllSpace(s)
    ensures NonWhitespace(s) == []
    decreases |s|
  {
    if s != [] {
      assert AllSpace(s[1..]) by {
        forall k | 0 <= k < |s| - 1
          ensures IsWhitespace(s[1..][k])
        {
          assert s[1..][k] == s[k + 1];
        }
      }
      AllWhitespace(s[1..]);
    }
  }

  /** Dropping trailing whitespace keeps the characters that are not whitespace. */
  lemma TrimEndKeepsNonWhitespace(s: string)
    ensures NonWhitespace(TrimEnd(s)) == NonWhitespace(s)
  {
    var r := TrimEnd(s);
    TrimEndRest(s);
    NonWhitespaceAppend(r, s[|r|..]);
    AllWhitespace(s[|r|..]);
  }

  /**
   * `searchQuery.trim().replace(/\s+/g, ' ')`: the words of the query
   * joined by single spaces, empty exactly when the query is all whitespace.
   */
  function NormalizeQuery(s: string): (r: string)
    ensures r == [] <==> AllSpace(s)
    ensures r == JoinWithSpace(Words(s))
  {
    var t := Trim(s);
    CollapseWhitespaceWords(t);
    WordsTrim(s);
    assert LeadingSpace(t) == [] && TrailingSpace(t) == [];
    CollapseWhitespace(t)
  }

  /**
   * The normalised query has no whitespace at either end, has single
   * spaces between words, has the words of the query and keeps every
   * character of the query that is not whitespace, in order.
   */
  lemma NormalizeQueryShape(s: string)
    ensures var r := NormalizeQuery(s);
      && (r == [] || (!IsWhitespace(r[0]) && !IsWhitespace(r[|r| - 1])))
      && Collapsed(r)
      && Words(r) == Words(s)
      && NonWhitespace(r) == NonWhitespace(s)
  {
    NormalizeQueryCollapsed(s);
    NormalizeQueryWords(s);
    NormalizeQueryNonWhitespace(s);
  }

  /** The normalised query is in the normal form and has no whitespace at either end. */
  lemma NormalizeQueryCollapsed(s: string)
    ensures var r := NormalizeQuery(s);
      (r == [] || (!IsWhitespace(r[0]) && !IsWhitespace(r[|r| - 1]))) && Collapsed(r)
  {
    var t := Trim(s);
    var r := NormalizeQuery(s);
    assert r == CollapseWhitespace(t);
    CollapseNormalForm(t);
    if r != [] {
      assert !IsWhitespace(r[|r| - 1]);
    }
  }

  /** The normalised query has the words of the query. */
  lemma NormalizeQueryWords(s: string)
    ensures Words(NormalizeQuery(s)) == Words(s)
  {
    WordsAreWords(s);
    WordsOfJoin(Words(s));
  }

  /** The normalised query keeps the characters of the query that are not whitespace. */
  lemma NormalizeQueryNonWhitespace(s: string)
    ensures NonWhitespace(NormalizeQuery(s)) == NonWhitespace(s)
  {
    var t := Trim(s);
    assert NormalizeQuery(s) == CollapseWhitespace(t);
    CollapseKeepsNonWhitespace(t);
    TrimStartKeepsNonWhitespace(s);
    TrimEndKeepsNonWhitespace(TrimStart(s));
  }

  /**
   * The normalised query is the only string in the normal form, not
   * starting with whitespace, that has the words of the query.
   */
  lemma NormalizeQueryUnique(s: string, x: string)
    requires Collapsed(x) && (x == [] || !IsWhitespace(x[0]))
    requires Words(x) == Words(s)
    ensures x == NormalizeQuery(s)
  {
    var j := JoinWithSpace(Words(x));
    assert x == LeadingSpace(x) + j + TrailingSpace(x) by {
      CollapseFixesCollapsed(x);
      CollapseWhitespaceWords(x);
    }
    assert LeadingSpace(x) == "";
    assert TrailingSpace(x) == "" by {
      if x != [] {
        assert !IsWhitespace(x[|x| - 1]);
      }
    }
    assert "" + j + "" == j;
    assert NormalizeQuery(s) == JoinWithSpace(Words(s));
  }

  /** Normalising a normalised query changes nothing. */
  lemma NormalizeQueryIdempotent(s: string)
    ensures NormalizeQuery(NormalizeQuery(s)) == NormalizeQuery(s)
  {
    var r := NormalizeQuery(s);
    NormalizeQueryShape(s);
    if r != [] {
      assert TrimStart(r) == r;
      assert TrimEnd(r) == r;
    }
    assert Trim(r) == r;
    CollapseFixesCollapsed(r);
  }

  /** `handleSearch`: the query to search for, or None when it normalises to `''` and no search starts. */
  function HandleSearch(searchQuery: string): (submitted: Option<string>)
    ensures submitted.None? <==> AllSpace(searchQuery)
    ensures submitted.Some? ==> submitted.value == NormalizeQuery(searchQuery)
  {
    var trimmed := NormalizeQuery(searchQuery);
    if trimmed == "" then None else Some(trimmed)
  }
}
