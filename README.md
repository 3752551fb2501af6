# woodytv search core, modelled in Dafny

This project models the search core of the woodytv front-end and proves
properties of the model:

- **Traditional/Simplified Chinese converter** (`src/lib/chinese-converter.ts`).
  - The fixed Traditional-to-Simplified table, as JavaScript builds it from an
    object literal with repeated keys.
  - The reverse table, filled from the forward table once.
  - The two converters. Each does a pass of global literal replacements over
    the phrase keys, then a pass over the single-character keys.
  - `generateSearchVariants` and `matchesQuery`.
- **Search route** (`src/app/api/search/route.ts`), the body of `GET`:
  - the empty-query guard;
  - the choice of enabled sites;
  - the site × variant fan-out;
  - the all-or-nothing `Promise.all` join;
  - first-wins de-duplication on the string key `${id}-${source}`;
  - the yellow-word filter on `type_name`.
- **Search page** (`src/app/search/page.tsx`):
  - grouping results under a title/year/kind key;
  - the group comparator;
  - the client-side yellow-word filter;
  - the flat-list comparator;
  - the in-place sorts they feed;
  - the query normalisation of `handleSearch`.

Modules, one per file:

- `Wrappers` (`wrappers.dfy`): Option.
- `Sequences` (`sequences.dfy`): subsequences.
- `JsStrings` (`js_strings.dfy`), the JavaScript string built-ins the core uses:
  - `includes`;
  - a global literal replace;
  - `trim`;
  - `\s`;
  - string `<`.
- `ScriptTable` (`script_table.dfy`): the table's entries, one constant per source line.
- `ChineseConverter` (`chinese_converter.dfy`).
- `SearchResults` (`search_result.dfy`): the result record and the yellow-word filter shared by route and page.
- `Sorting` (`sorting.dfy`): `Array.prototype.sort` with a comparator.
- `SearchRoute` (`search_route.dfy`).
- `SearchPage` (`search_page.dfy`).

Three things are parameters. The behaviour of the code is stated for every value of them:

- `toLowerCase`: `lower`;
- `localeCompare`: `lc`;
- the yellow-word list: `yellowWords`.

Configuration is a parameter too: the site list and the `DisableYellowFilter` flag.
The downstream search of one site for one variant is a function from the (site, variant) pair to its outcome, which is either a result list or a rejection.

The code makes these choices, and the model keeps them:

- **De-duplication key.** Results are de-duplicated on the string
  `${id}-${source}`, not on the pair (id, source). Two different pairs can
  share a key (`SearchRoute.KeyCollision`).
- **Failed searches.** `Promise.all` makes one rejected downstream search fail
  the whole request with status 500. Failures are not isolated per source
  (`SearchRoute.FailsIffSomeSearchRejects`).
- **Group keys.** A group key drops only U+0020 spaces from the title, not all
  whitespace (`SearchPage.StripSpaces`).
- **Group year order.** The group comparator compares years with string `>`,
  not as numbers.
- **Orderings.** Both comparators are antisymmetric whenever `localeCompare`
  is on the two strings compared.
  - The group comparator orders by boost, then by year (`'unknown'` last,
    other years by descending string `>`), then by `localeCompare` of the
    keys. It can be inconsistent only through `localeCompare`.
  - The flat comparator can also be inconsistent through its years: `parseInt`
    reads `"2020"` and `"2020a"` as the same number, so it needs years that
    are four digits or `'unknown'`
    (`SearchPage.CompareResultsNeedsWellFormedYears`).

## Model

| member | source | states |
|---|---|---|
| ScriptTable.LiteralSameLengths | src/lib/chinese-converter.ts:9-65 | every key of the literal table is exactly as long as its value |
| ChineseConverter.Assign | src/lib/chinese-converter.ts:70-72 | `r[k] = v` adds one entry exactly when `k` is a new key, and none otherwise |
| ChineseConverter.AssignLookup | src/lib/chinese-converter.ts:70-72 | after `r[k] = v`, `k` reads `v` and every other key reads what it read before |
| ChineseConverter.AssignKeys | src/lib/chinese-converter.ts:70-72 | an assignment keeps every key in its place, puts a new key last and adds no entry other than `(k, v)` |
| ChineseConverter.AssignKeepsKeysDistinct | src/lib/chinese-converter.ts:70-72 | an assignment never makes a key appear twice |
| ChineseConverter.FromEntries | src/lib/chinese-converter.ts:7-66 | an object literal with repeated keys: its entries assigned one after the other, starting from `{}` |
| ChineseConverter.NeverAssignedMissing | src/lib/chinese-converter.ts:7-66 | in an object built by assignments, a key is missing iff no assignment used it |
| ChineseConverter.LastAssignmentWins | src/lib/chinese-converter.ts:7-66 | a key holds the value of its last assignment, so a repeated literal key keeps its last value |
| ChineseConverter.FromEntriesShape | src/lib/chinese-converter.ts:7-66 | an object built by assignments has distinct keys, and keys and values of equal length when the assignments had them |
| ChineseConverter.ReverseOf | src/lib/chinese-converter.ts:68-73 | the reverse table: every forward entry, key and value exchanged, assigned in forward order |
| ChineseConverter.Forward | src/lib/chinese-converter.ts:7-66 | the object literal's table: FromEntries of the literal's entries, each repeated key keeping its first place and its last value |
| ChineseConverter.Reverse | src/lib/chinese-converter.ts:68-73 | the reverse table: ReverseOf(Forward), bound once and never changed |
| ChineseConverter.BuildReverseTable | src/lib/chinese-converter.ts:68-73 | the `forEach` loop builds the reverse table: each forward entry, swapped, assigned in forward order |
| ChineseConverter.ReverseMapsToLastKey | src/lib/chinese-converter.ts:68-73 | a simplified string is missing from the reverse table iff no forward entry has it as its value; otherwise it maps to the key of the last forward entry that does |
| ChineseConverter.ReverseSameLengths | src/lib/chinese-converter.ts:68-73 | a forward table with keys and values of equal length gives a reverse table that has them too |
| ChineseConverter.TablesSameLengths | src/lib/chinese-converter.ts:9-73 | both tables pair every key with a value of equal length |
| ChineseConverter.ApplyPass | src/lib/chinese-converter.ts:82-86 | one `forEach` over the entries: each entry the pass selects replaces all occurrences of its key, in table order |
| ChineseConverter.Converted | src/lib/chinese-converter.ts:78-96 | a conversion: the phrase pass over the text, then the character pass over its result |
| ChineseConverter.Convert | src/lib/chinese-converter.ts:78-96 | the two `forEach` loops give the phrase pass over the text, then the character pass over its result |
| ChineseConverter.TraditionalToSimplifiedChinese | src/lib/chinese-converter.ts:78-96 | the conversion by the forward table; the result is as long as the text |
| ChineseConverter.SimplifiedToTraditionalChinese | src/lib/chinese-converter.ts:101-119 | the conversion by the reverse table; the result is as long as the text |
| ChineseConverter.SelectedEntries | src/lib/chinese-converter.ts:83-92 | the entries a pass acts on are the table's entries with a key longer than one character (phrases) or of one character |
| ChineseConverter.PassReplacesSelectedEntries | src/lib/chinese-converter.ts:82-86 | a pass replaces all occurrences of each selected entry's key by its value, in table order, and does nothing for other entries |
| ChineseConverter.PhrasesBeforeCharacters | src/lib/chinese-converter.ts:81-93 | a conversion applies every phrase entry to the whole text before it applies any single-character entry |
| ChineseConverter.PassLeavesUnmapped | src/lib/chinese-converter.ts:82-86 | a text with no key of a selected non-identity entry passes a pass unchanged |
| ChineseConverter.ConvertedLeavesUnmapped | src/lib/chinese-converter.ts:78-96 | a text containing no key of a non-identity entry is returned unchanged by a conversion |
| ChineseConverter.WithoutIdentities | src/lib/chinese-converter.ts:7-66 | the table without its identity entries such as `'言': '言'`: exactly the entries whose key differs from their value |
| ChineseConverter.PassIgnoresIdentities | src/lib/chinese-converter.ts:82-86 | identity entries have no effect on a pass |
| ChineseConverter.ConvertedIgnoresIdentities | src/lib/chinese-converter.ts:78-96 | identity entries have no effect on a conversion |
| ChineseConverter.PassLength | src/lib/chinese-converter.ts:82-93 | a pass over a table whose keys and values have equal lengths keeps the text's length |
| ChineseConverter.ConvertedLength | src/lib/chinese-converter.ts:78-96 | a conversion over such a table keeps the text's length |
| ChineseConverter.SetAdd | src/lib/chinese-converter.ts:126-141 | `Set.add` on an insertion-ordered set: a new string goes last, a present one changes nothing |
| ChineseConverter.VariantsOf | src/lib/chinese-converter.ts:125-144 | the variants are 1 to 3 distinct strings with the query first, and they are exactly the query and the two converted forms; in `Set` insertion order, a new simplified form comes second and a new traditional form comes last |
| ChineseConverter.SearchVariants | src/lib/chinese-converter.ts:125-144 | the variants of a query: 1 to 3 distinct strings with the query first; every other variant is the simplified or the traditional conversion |
| ChineseConverter.GenerateSearchVariants | src/lib/chinese-converter.ts:125-144 | the `Set.add` sequence returns the variants |
| ChineseConverter.AnyIncludes | src/lib/chinese-converter.ts:154-162 | the nested loops with early return answer true iff some lower-cased text variant includes some lower-cased query variant |
| ChineseConverter.MatchesQuery | src/lib/chinese-converter.ts:149-163 | `matchesQuery` is true iff some lower-cased text variant includes some lower-cased query variant; it is true whenever the lower-cased text includes the lower-cased query, hence for `(t, t)` and for a query lower-casing to `''` |
| JsStrings.Includes | src/lib/chinese-converter.ts:157 | `s.includes(sub)`: `sub` occurs in `s` at some index, the empty string at every index |
| JsStrings.ReplaceAll | src/lib/chinese-converter.ts:84 | `replace(new RegExp(key, 'g'), val)` for a key without metacharacters: occurrences found from the left, never overlapping, each replaced by `val`, replaced text not rescanned |
| JsStrings.ReplaceAllAbsent | src/lib/chinese-converter.ts:84 | a replace-all of a key that does not occur changes nothing |
| JsStrings.ReplaceAllIdentity | src/lib/chinese-converter.ts:84 | replacing a key by itself changes nothing |
| JsStrings.ReplaceAllSameLength | src/lib/chinese-converter.ts:84 | replacing by a value of the key's length keeps the length |
| JsStrings.ReplaceAllChanges | src/lib/chinese-converter.ts:84 | for a different value of equal length, the string changes iff the key occurs in it |
| JsStrings.IncludesSelfAndEmpty | src/lib/chinese-converter.ts:157 | every string includes itself and the empty string |
| JsStrings.Trim | src/app/search/page.tsx:216 | `trim()` leaves no whitespace at either end, and gives `''` exactly when the string is all whitespace |
| JsStrings.TrimIsSlice | src/app/search/page.tsx:216 | `trim()` returns a contiguous slice of the string, and everything outside that slice is whitespace |
| JsStrings.TrimStart | src/app/search/page.tsx:216 | the string without its leading whitespace: a suffix, all of whose dropped characters are whitespace, that does not start with whitespace |
| JsStrings.TrimEnd | src/app/search/page.tsx:216 | the string without its trailing whitespace: a prefix, all of whose dropped characters are whitespace, that does not end with whitespace |
| JsStrings.LexLess | src/app/search/page.tsx:89 | string `<`: lexicographic on characters, a proper prefix before any longer string |
| JsStrings.LexLessTrichotomy | src/app/search/page.tsx:89 | string `<` is a strict total order: exactly one of `a == b`, `a < b` and `b < a` holds |
| SearchResults.TypeNameOrEmpty | src/app/api/search/route.ts:55 | the definition: a missing `type_name` reads as `''`, a present one as itself; what it means for the filter is stated by `SearchResults.EmptyTypeNameBlockedOnlyByEmptyWord` |
| SearchResults.Blocked | src/app/api/search/route.ts:55-56 | a result is blocked iff its type name, `''` when missing, includes some yellow word |
| SearchResults.DropBlocked | src/app/api/search/route.ts:53-58 | a result survives the filter iff it is in the input and its type name includes no yellow word; the survivors keep their input order and their fields |
| SearchResults.DropBlockedCounts | src/app/api/search/route.ts:54-57 | each result that is not blocked survives as many times as it occurs in the input, and no blocked result survives |
| SearchResults.DropBlockedKeepsAll | src/app/api/search/route.ts:54-57 | the filter returns its input iff no result in it is blocked |
| SearchResults.DropBlockedNoneBlocked | src/app/api/search/route.ts:54-57 | a list with nothing blocked passes unchanged |
| SearchResults.EmptyTypeNameBlockedOnlyByEmptyWord | src/app/api/search/route.ts:55-56 | a missing or empty type name is blocked iff the yellow words include `''` |
| SearchResults.EmptyWordBlocksEverything | src/app/api/search/route.ts:56 | an empty yellow word removes every result |
| SearchResults.DropBlockedIdempotent | src/app/api/search/route.ts:54-57 | filtering twice is filtering once |
| SearchRoute.EnabledSites | src/app/api/search/route.ts:29 | a site is searched iff it is configured and its `disabled` flag is false; the searched sites keep the configuration order |
| SearchRoute.EnabledSitesCounts | src/app/api/search/route.ts:29 | each enabled site is kept as many times as it is configured, and no disabled site is kept |
| SearchRoute.Calls | src/app/api/search/route.ts:35-37 | the (site, variant) pair of every downstream search, sites outer and variants inner |
| SearchRoute.CallsCount | src/app/api/search/route.ts:35-37 | there are as many calls as enabled sites times variants |
| SearchRoute.CallAt | src/app/api/search/route.ts:35-37 | with `n` variants, call `i * n + j` searches site `i` for variant `j`: sites outer, variants inner |
| SearchRoute.CallsArePairs | src/app/api/search/route.ts:35-37 | every call is for an enabled site and a variant |
| SearchRoute.SomeCallRejects | src/app/api/search/route.ts:35-40 | some call's outcome is a rejection iff the search of some site for some variant rejects |
| SearchRoute.Outcomes | src/app/api/search/route.ts:40 | the definition: the outcome of each call, in call order; what the join makes of them is stated by `SearchRoute.SomeCallRejects` and `SearchRoute.JoinAllConcatenates` |
| SearchRoute.JoinAll | src/app/api/search/route.ts:40-41 | the join fails iff some outcome is a rejection |
| SearchRoute.Flatten | src/app/api/search/route.ts:41 | `results.flat()`: all result lists concatenated in order |
| SearchRoute.JoinAllConcatenates | src/app/api/search/route.ts:40-41 | when nothing rejects, the join is the concatenation of all result lists in call order |
| SearchRoute.ResultKey | src/app/api/search/route.ts:46 | the de-duplication key is the string `${id}-${source}` |
| SearchRoute.Dedup | src/app/api/search/route.ts:44-51 | the values of `uniqueResults`: each result whose key no earlier kept result has, in input order |
| SearchRoute.KeysOfMembers | src/app/api/search/route.ts:46 | a key is in the key set of a list exactly when some result of the list carries it |
| SearchRoute.KeyCollision | src/app/api/search/route.ts:46 | id `"a-b"` with source `"c"` and id `"a"` with source `"b-c"` are different pairs with the same key, and de-duplication keeps only the first |
| SearchRoute.DedupByKey | src/app/api/search/route.ts:44-51 | the `forEach` over the `uniqueResults` map returns the de-duplicated list |
| SearchRoute.DedupIsSubsequence | src/app/api/search/route.ts:44-51 | the output is a subsequence of the input |
| SearchRoute.DedupDistinctKeys | src/app/api/search/route.ts:44-51 | no two output results share a key |
| SearchRoute.DedupSameKeys | src/app/api/search/route.ts:44-51 | the output has exactly the keys of the input |
| SearchRoute.DedupKeepsFirst | src/app/api/search/route.ts:44-51 | each kept result is the first input result with its key |
| SearchRoute.DedupIsFirstOccurrences | src/app/api/search/route.ts:44-51 | the output is exactly the input results that are the first with their key, in the order of those first occurrences (first wins, in first-seen order) |
| SearchRoute.KeptIffFirst | src/app/api/search/route.ts:47 | a result is added to the map exactly when no earlier result carries its key |
| SearchRoute.DedupRepeatedResult | src/app/api/search/route.ts:39-51 | a result found again by a later variant, `[a, b, a]`, de-duplicates to `[a, b]` |
| SearchRoute.DistinctKeysDedupUnchanged | src/app/api/search/route.ts:44-51 | a list with pairwise distinct keys passes unchanged |
| SearchRoute.DedupIdempotent | src/app/api/search/route.ts:44-51 | de-duplicating twice is de-duplicating once |
| SearchRoute.SearchResponse | src/app/api/search/route.ts:14-73 | the response for `q`: `results: []` for a missing or empty `q`, otherwise the response for the variants of `q` |
| SearchRoute.Respond | src/app/api/search/route.ts:29-73 | the enabled sites' searches for the variants, joined by `Promise.all`: the 500 error on a rejection, otherwise the joined results de-duplicated and, unless disabled, filtered |
| SearchRoute.Get | src/app/api/search/route.ts:10-73 | the handler's response; a missing or empty `q` answers `results: []` without a search |
| SearchRoute.RespondFailsIff | src/app/api/search/route.ts:39-72 | for any variants, the response is the 500 error iff the search of some enabled site for some variant rejects |
| SearchRoute.FailsIffSomeSearchRejects | src/app/api/search/route.ts:39-72 | for a non-empty query, the request fails iff some enabled site's search for some variant of the query rejects; there is no partial result |
| SearchRoute.RespondWhenAllSucceed | src/app/api/search/route.ts:39-58 | for any variants, when the search of every enabled site for every variant succeeds (other searches may reject, as they are never made), the results are the concatenation in call order, de-duplicated, then filtered unless the filter is disabled |
| SearchRoute.ResultsWhenAllSucceed | src/app/api/search/route.ts:39-58 | the same for the variants of a non-empty query, assuming success only of the searches the handler makes |
| SearchPage.StripSpaces | src/app/search/page.tsx:54 | `replaceAll(' ', '')` as a replace-all of `' '` by `''` |
| SearchPage.YearOrUnknown | src/app/search/page.tsx:55 | `item.year \|\| 'unknown'`: an empty year reads as `'unknown'` |
| SearchPage.Kind | src/app/search/page.tsx:56 | `'movie'` for exactly one episode, `'tv'` otherwise |
| SearchPage.GroupKey | src/app/search/page.tsx:54-56 | the key: space-stripped title, `-`, year or `'unknown'`, `-`, kind |
| SearchPage.WithoutSpaces | src/app/search/page.tsx:54 | the title's characters other than U+0020, in order |
| SearchPage.StripSpacesRemovesSpaces | src/app/search/page.tsx:54 | `replaceAll(' ', '')` removes exactly the U+0020 characters |
| SearchPage.KindsSeparateGroups | src/app/search/page.tsx:54-56 | a one-episode result and a result with another episode count never share a key |
| SearchPage.GroupKeyIdentifies | src/app/search/page.tsx:54-56 | with well-formed years, two results share a key iff their space-stripped titles, years (or `'unknown'`) and kinds agree |
| SearchPage.GroupIndex | src/app/search/page.tsx:57 | `map.get(key)` finds the first group with that key |
| SearchPage.AddToGroup | src/app/search/page.tsx:57-59 | get, push and set: the item joins the end of the group with its key, or starts a new group last; other groups and keys are untouched, and keys stay distinct |
| SearchPage.Grouped | src/app/search/page.tsx:51-60 | the map's entries after offering every result in turn to AddToGroup |
| SearchPage.GroupResults | src/app/search/page.tsx:51-60 | the `forEach` over the results fills the map as the grouping says |
| SearchPage.WithKey | src/app/search/page.tsx:51-60 | the results with a given key, in input order |
| SearchPage.GroupKeysDistinct | src/app/search/page.tsx:51-60 | no two groups have the same key |
| SearchPage.EveryKeyGrouped | src/app/search/page.tsx:51-60 | every result's key has a group |
| SearchPage.AddToGroupKeepsGroups | src/app/search/page.tsx:57-59 | adding an item never removes a group |
| SearchPage.GroupMembersAreWithKey | src/app/search/page.tsx:51-60 | each group holds exactly the results with its key, in input order |
| SearchPage.EachResultInOneGroup | src/app/search/page.tsx:51-60 | grouping partitions the input: each result is in exactly one group |
| SearchPage.GroupedTwo | src/app/search/page.tsx:51-60 | two results with different keys form two one-member groups, in input order |
| SearchPage.DifferentKindsTwoGroups | src/app/search/page.tsx:54-56 | `"A B"` with one episode and `"AB"` with five, both of 2020, have equal stripped titles yet form two groups |
| SearchPage.GroupBoosted | src/app/search/page.tsx:63-68 | a group's first member's space-stripped title includes the trimmed, space-stripped query |
| SearchPage.RankedOrder | src/app/search/page.tsx:70-90 | the branches both comparators share: match test, then the tie-break on equal years, then `'unknown'` last, then the later year first |
| SearchPage.RankedOrderTies | src/app/search/page.tsx:70-90 | the shared branches tie only on equal match results, equal years and a `localeCompare` tie, so the branch for two different `'unknown'` years is unreachable |
| SearchPage.RankedOrderAntisymmetric | src/app/search/page.tsx:70-90 | the shared branches are antisymmetric when the tie-break is and when exactly one of two different known years is the later |
| SearchPage.RankedOrderRespectsRank | src/app/search/page.tsx:70-90 | an item of higher rank (non-matching after matching, `'unknown'` after a known year) always compares after one of lower rank |
| SearchPage.CompareGroups | src/app/search/page.tsx:61-92 | the group comparator: RankedOrder on the boost, the first members' years, `localeCompare` of the keys and string `>` on the years |
| SearchPage.CompareGroupsAntisymmetric | src/app/search/page.tsx:61-92 | the group comparator is antisymmetric whenever `localeCompare` is on the two keys |
| SearchPage.CompareGroupsTies | src/app/search/page.tsx:74-82 | two groups tie only with equal boost, equal first years and a `localeCompare` tie on the keys |
| SearchPage.CompareGroupsByYear | src/app/search/page.tsx:74-90 | among equally boosted groups with different known years, the year greater by string `>` goes first |
| SearchPage.GroupRankOrders | src/app/search/page.tsx:62-86 | a boosted group goes before an unboosted one, and within each, a known year before `'unknown'` |
| SearchPage.LeadingDigits | src/app/search/page.tsx:201 | the longest prefix of decimal digits |
| SearchPage.ParseInt | src/app/search/page.tsx:201 | `parseInt` gives `NaN` iff the string does not start with a digit |
| SearchPage.ParseFourDigits | src/app/search/page.tsx:201 | a four-digit year parses to the number it spells |
| SearchPage.Greater | src/app/search/page.tsx:201 | `>` on `parseInt` results, false when either is `NaN` |
| SearchPage.CompareResults | src/app/search/page.tsx:180-204 | the flat comparator: RankedOrder on equality with `query.trim()`, the years, `localeCompare` of the titles and `>` on the parsed years |
| SearchPage.CompareResultsAntisymmetric | src/app/search/page.tsx:180-204 | with years of four digits or `'unknown'`, the flat comparator is antisymmetric whenever `localeCompare` is on the two titles |
| SearchPage.CompareResultsNeedsWellFormedYears | src/app/search/page.tsx:201 | `"2020"` and `"2020a"` parse to the same number, so each of two same-titled results is put after the other |
| SearchPage.CompareResultsTies | src/app/search/page.tsx:189-194 | two results tie only with equal exact-match results, equal years and a `localeCompare` tie on the titles |
| SearchPage.CompareResultsByYear | src/app/search/page.tsx:199-201 | among results tied on exact match with different well-formed known years, the numerically larger goes first |
| SearchPage.ResultRankOrders | src/app/search/page.tsx:182-198 | a title equal to the trimmed query goes before one that is not, and within each, a known year before `'unknown'` |
| SearchPage.ResultOrderAntisymmetric | src/app/search/page.tsx:180-204 | with well-formed years and a consistent `localeCompare`, the flat comparator is antisymmetric on any list |
| SearchPage.ResultOrderRanks | src/app/search/page.tsx:180-204 | the flat comparator puts every result of higher rank after every result of lower rank |
| SearchPage.GroupOrderAntisymmetric | src/app/search/page.tsx:61-92 | with a consistent `localeCompare`, the group comparator is antisymmetric on any list |
| SearchPage.GroupOrderRanks | src/app/search/page.tsx:61-92 | the group comparator puts every group of higher rank after every group of lower rank |
| Sorting.Sort | src/app/search/page.tsx:180 | sorting in place permutes the array; with an antisymmetric comparator no two neighbours are out of order |
| Sorting.RanksAscend | src/app/search/page.tsx:180 | in a list with its neighbours in order, a rank the comparator respects never decreases |
| SearchPage.RankResults | src/app/search/page.tsx:170-204 | the client filter unless disabled, then the sort: a permutation of the surviving results, neighbours in order, exact-title matches first, `'unknown'` years last within each part |
| SearchPage.AggregateResults | src/app/search/page.tsx:50-92 | grouping then sorting: a permutation of the groups, neighbours in order, boosted groups first, `'unknown'` years last within each part |
| SearchPage.CollapseWhitespace | src/app/search/page.tsx:216 | `replace(/\s+/g, ' ')` empties only the empty string, keeps a first character that is not whitespace and turns leading whitespace into `' '` |
| SearchPage.CollapseWhitespaceWords | src/app/search/page.tsx:216 | `replace(/\s+/g, ' ')` gives the words of the string (its maximal runs without whitespace) joined by single spaces, with one space more in front when the string starts with whitespace and one more at the end when it ends with whitespace after a word: each whitespace run becomes exactly one space |
| SearchPage.WordsOfJoin | src/app/search/page.tsx:216 | words joined by single spaces split back into the same words |
| SearchPage.WordsTrim | src/app/search/page.tsx:216 | `trim()` does not change the words of a string |
| SearchPage.CollapseKeepsNonWhitespace | src/app/search/page.tsx:216 | collapsing keeps every non-whitespace character, in order |
| SearchPage.CollapseNormalForm | src/app/search/page.tsx:216 | a string without trailing whitespace collapses to single spaces, each followed by a non-whitespace character |
| SearchPage.CollapseFixesCollapsed | src/app/search/page.tsx:216 | a string already in that form is left as it is |
| SearchPage.NormalizeQuery | src/app/search/page.tsx:216 | the normalised query is the words of the typed query joined by single spaces; it is empty iff the typed query is all whitespace |
| SearchPage.NormalizeQueryShape | src/app/search/page.tsx:216 | the normalised query has no whitespace at either end, only single spaces each followed by a word, the words of the typed query, and every non-whitespace character of the query in order |
| SearchPage.NormalizeQueryUnique | src/app/search/page.tsx:216 | any string in that single-space form, not starting with whitespace, with the words of the typed query is the normalised query |
| SearchPage.NormalizeQueryIdempotent | src/app/search/page.tsx:216 | normalising twice is normalising once |
| SearchPage.HandleSearch | src/app/search/page.tsx:214-217 | no search starts iff the query is all whitespace; otherwise the normalised query is searched |

## Left out

- HTTP and configuration plumbing are not modelled:
  - `NextResponse` and the cache headers;
  - `getCacheTime` and `getConfig`;
  - URL parsing;
  - the `encodeURIComponent` in the fetch URLs.
  The query parameter, the site list and the filter flags are inputs.
- `searchFromApi` is not part of this model. The outcome of each search is a parameter.
- Concurrency is not modelled. `Promise.all` is an in-order join of the outcomes: its result does not depend on settling order, and any rejection makes the request fail.
- React state, hooks, router navigation, search history, `localStorage` and rendering are UI, and are left out.
- The client reads the response of the route through `fetch`. `SearchPage.RankResults` takes that list as input.
- `toLowerCase` and `localeCompare` are parameters. Unicode case mapping and locale collation are not modelled.
- The yellow-word list is not part of this model. It is the parameter `yellowWords`.
- A site whose `disabled` field is absent is modelled with `disabled == false`.
- The table keys are plain CJK characters, so the `RegExp` of each replacement holds no metacharacters. It is modelled as a literal replace-all.
- Strings are sequences of characters. UTF-16 surrogate pairs, and so the `length` of characters outside the Basic Multilingual Plane, are not modelled.
- Sorting.Sort: it promises a permutation and ordered neighbours only. The engine's sort algorithm is not part of the program, and an insertion sort stands in for it. The comparators are not proved transitive, so the model does not claim a fully sorted array.
- SearchPage.RankResults: it requires every year to be four digits or `'unknown'`. The page makes no such check. For other years the comparator is not antisymmetric (`SearchPage.CompareResultsNeedsWellFormedYears`).
- SearchPage.RankResults: it also requires a consistent `localeCompare`.
- SearchPage.AggregateResults: it requires a consistent `localeCompare`.
- SearchPage.CollapseWhitespace: its own contract states only the empty case and the first character. That each whitespace run becomes exactly one space is proved separately, by `SearchPage.CollapseWhitespaceWords`, because that statement needs the words of the string.
- SearchPage.ParseInt: it reads only leading decimal digits. Leading whitespace, a sign and a `0x` prefix are not modelled, because the years it is given are four digits or `'unknown'`.
