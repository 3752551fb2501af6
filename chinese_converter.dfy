/**
 * Traditional/Simplified Chinese conversion by literal string replacement
 * (src/lib/chinese-converter.ts): the forward table as JavaScript builds it
 * from its object literal, the reverse table derived from it once, the two
 * converters, the search variants of a query and the variant-aware match.
 */
module ChineseConverter {
  import opened Wrappers
  import opened JsStrings
  import ScriptTable

  type Entry = ScriptTable.Entry

  // ----- Insertion-ordered records: JavaScript objects whose keys are not array indices

  /** `k` is a key of `r`. */
  predicate HasKey(r: seq<Entry>, k: string) {
    exists i :: 0 <= i < |r| && r[i].0 == k
  }

  /** No key appears twice, as in every JavaScript object. */
  predicate DistinctKeys(r: seq<Entry>) {
    forall i, j :: 0 <= i < j < |r| ==> r[i].0 != r[j].0
  }

  /** `r[k]`, or None when `k` is not a key of `r`. */
  function Lookup(r: seq<Entry>, k: string): Option<string> {
    if r == [] then None
    else if r[0].0 == k then Some(r[0].1)
    else Lookup(r[1..], k)
  }

  /**
   * `r[k] = v`: the value of an existing key is replaced where it stands,
   * a new key goes last.
   */
  function Assign(r: seq<Entry>, k: string, v: string): (r': seq<Entry>)
    ensures |r'| == if HasKey(r, k) then |r| else |r| + 1
  {
    if r == [] then [(k, v)]
    else if r[0].0 == k then [(k, v)] + r[1..]
    else
      assert HasKey(r, k) <==> HasKey(r[1..], k) by {
        if HasKey(r, k) {
          var i :| 0 <= i < |r| && r[i].0 == k;
          assert r[1..][i - 1].0 == k;
        }
        if HasKey(r[1..], k) {
          var i :| 0 <= i < |r[1..]| && r[1..][i].0 == k;
          assert r[i + 1].0 == k;
        }
      }
      [r[0]] + Assign(r[1..], k, v)
  }

  /** After `r[k] = v`, `k` has value `v` and every other key keeps its value. */
  lemma {:induction false} AssignLookup(r: seq<Entry>, k: string, v: string, k': string)
    ensures Lookup(Assign(r, k, v), k') == if k' == k then Some(v) else Lookup(r, k')
  {
    if r != [] && r[0].0 != k {
      AssignLookup(r[1..], k, v, k');
      assert Assign(r, k, v)[1..] == Assign(r[1..], k, v);
    }
  }

  /**
   * `r[k] = v` keeps every key where it was and adds only the entry
   * `(k, v)`; a new key goes last.
   */
  lemma {:induction false} AssignKeys(r: seq<Entry>, k: string, v: string)
    ensures var r' := Assign(r, k, v);
            && (forall i :: 0 <= i < |r| ==> r'[i].0 == r[i].0)
            && (!HasKey(r, k) ==> r'[|r|] == (k, v))
            && (forall e :: e in r' ==> e in r || e == (k, v))
  {
    if r != [] {
      var r' := Assign(r, k, v);
      if r[0].0 == k {
        assert forall e :: e in r[1..] ==> e in r;
      } else {
        AssignKeys(r[1..], k, v);
        var rest := Assign(r[1..], k, v);
        assert r' == [r[0]] + rest;
        assert forall e :: e in r[1..] ==> e in r;
      }
    }
  }

  /** `r[k] = v` never makes a key appear twice. */
  lemma AssignKeepsKeysDistinct(r: seq<Entry>, k: string, v: string)
    requires DistinctKeys(r)
    ensures DistinctKeys(Assign(r, k, v))
  {
    AssignKeys(r, k, v);
    var r' := Assign(r, k, v);
    forall i, j | 0 <= i < j < |r'|
      ensures r'[i].0 != r'[j].0
    {
      if j == |r| {
        assert r'[j].0 == k && !HasKey(r, k);
        assert r'[i].0 == r[i].0;
      }
    }
  }

  /** The object obtained by assigning the entries one after the other, starting from `{}`. */
  function FromEntries(es: seq<Entry>): seq<Entry> {
    if es == [] then []
    else Assign(FromEntries(es[..|es| - 1]), es[|es| - 1].0, es[|es| - 1].1)
  }

  /** In an object built by assignments, a key is missing exactly when it was never assigned. */
  lemma {:induction false} NeverAssignedMissing(es: seq<Entry>, k: string)
    ensures Lookup(FromEntries(es), k).None? <==> forall i :: 0 <= i < |es| ==> es[i].0 != k
  {
    if es != [] {
      var prefix, last := es[..|es| - 1], es[|es| - 1];
      NeverAssignedMissing(prefix, k);
      AssignLookup(FromEntries(prefix), last.0, last.1, k);
      assert forall i :: 0 <= i < |prefix| ==> prefix[i] == es[i];
    }
  }

  /** In an object built by assignments, a key holds the value of its last assignment. */
  lemma {:induction false} LastAssignmentWins(es: seq<Entry>, k: string, i: int)
    requires 0 <= i < |es| && es[i].0 == k
    requires forall j :: i < j < |es| ==> es[j].0 != k
    ensures Lookup(FromEntries(es), k) == Some(es[i].1)
  {
    var prefix, last := es[..|es| - 1], es[|es| - 1];
    AssignLookup(FromEntries(prefix), last.0, last.1, k);
    if i < |es| - 1 {
      assert forall j :: 0 <= j < |prefix| ==> prefix[j] == es[j];
      LastAssignmentWins(prefix, k, i);
    }
  }

  /** An object built by assignments has distinct keys and only values that were assigned. */
  lemma {:induction false} FromEntriesShape(es: seq<Entry>)
    ensures DistinctKeys(FromEntries(es))
    ensures ScriptTable.SameLengths(es) ==> ScriptTable.SameLengths(FromEntries(es))
  {
    if es != [] {
      var prefix, last := es[..|es| - 1], es[|es| - 1];
      FromEntriesShape(prefix);
      AssignKeys(FromEntries(prefix), last.0, last.1);
      AssignKeepsKeysDistinct(FromEntries(prefix), last.0, last.1);
      assert forall e :: e in prefix ==> e in es;
    }
  }

  // ----- The two tables

  /** `traditionalToSimplified`: the object literal, with each repeated key holding its last value. */
  const Forward: seq<Entry> := FromEntries(ScriptTable.Literal)

  /** The table's entries with key and value exchanged, in the same order. */
  function Swapped(es: seq<Entry>): seq<Entry> {
    seq(|es|, i requires 0 <= i < |es| => (es[i].1, es[i].0))
  }

  /** `simplifiedToTraditional[simplified] = traditional` for every forward entry, in order. */
  function ReverseOf(forward: seq<Entry>): seq<Entry> {
    FromEntries(Swapped(forward))
  }

  /** `simplifiedToTraditional`, bound once and never changed. */
  const Reverse: seq<Entry> := ReverseOf(Forward)

  /** The `forEach` loop that fills the reverse table. */
  method BuildReverseTable(forward: seq<Entry>) returns (reverse: seq<Entry>)
    ensures reverse == ReverseOf(forward)
  {
    reverse := [];
    for i := 0 to |forward|
      invariant reverse == FromEntries(Swapped(forward[..i]))
    {
      var (traditional, simplified) := forward[i];
      assert Swapped(forward[..i + 1])[..i] == Swapped(forward[..i]);
      reverse := Assign(reverse, simplified, traditional);
    }
    assert forward[..|forward|] == forward;
  }

  /**
   * The reverse table maps a simplified value to the key of the last forward
   * entry carrying that value, and knows no other keys.
   */
  lemma ReverseMapsToLastKey(forward: seq<Entry>, simplified: string)
    ensures Lookup(ReverseOf(forward), simplified).None?
            <==> forall i :: 0 <= i < |forward| ==> forward[i].1 != simplified
    ensures forall i :: 0 <= i < |forward| && forward[i].1 == simplified
                        && (forall j :: i < j < |forward| ==> forward[j].1 != simplified)
                        ==> Lookup(ReverseOf(forward), simplified) == Some(forward[i].0)
  {
    var swapped := Swapped(forward);
    assert |swapped| == |forward|;
    assert forall i :: 0 <= i < |forward| ==> swapped[i] == (forward[i].1, forward[i].0);
    NeverAssignedMissing(swapped, simplified);
    forall i | 0 <= i < |forward| && forward[i].1 == simplified
                && (forall j :: i < j < |forward| ==> forward[j].1 != simplified)
      ensures Lookup(ReverseOf(forward), simplified) == Some(forward[i].0)
    {
      LastAssignmentWins(swapped, simplified, i);
    }
  }

  /** Both tables pair every key with a value of the same length. */
  lemma TablesSameLengths()
    ensures ScriptTable.SameLengths(Forward) && ScriptTable.SameLengths(Reverse)
  {
    ScriptTable.LiteralSameLengths();
    FromEntriesShape(ScriptTable.Literal);
    ReverseSameLengths(Forward);
  }

  /** Swapping keeps keys and values of equal length. */
  lemma ReverseSameLengths(forward: seq<Entry>)
    requires ScriptTable.SameLengths(forward)
    ensures ScriptTable.SameLengths(ReverseOf(forward))
  {
    var swapped := Swapped(forward);
    assert forall e :: e in swapped ==> (e.1, e.0) in forward;
    FromEntriesShape(swapped);
  }

  // ----- Conversion

  /** The two passes of a conversion: phrase keys first, then single-character keys. */
  datatype Pass = Phrases | Characters

  /** The entries a pass acts on; entries with an empty key belong to neither pass. */
  predicate Selects(pass: Pass, key: string) {
    match pass
    case Phrases => |key| > 1
    case Characters => |key| == 1
  }

  /** One `forEach` over the table: each entry the pass selects replaces every occurrence of its key. */
  function ApplyPass(pass: Pass, table: seq<Entry>, text: string): string {
    if table == [] then text
    else
      var before := ApplyPass(pass, table[..|table| - 1], text);
      var (key, value) := table[|table| - 1];
      if Selects(pass, key) then ReplaceAll(before, key, value) else before
  }

  /** A conversion: the phrase pass over the input, then the character pass over its result. */
  function Converted(table: seq<Entry>, text: string): string {
    ApplyPass(Characters, table, ApplyPass(Phrases, table, text))
  }

  /** The body shared by `traditionalToSimplifiedChinese` and `simplifiedToTraditionalChinese`. */
  method Convert(table: seq<Entry>, text: string) returns (result: string)
    ensures result == Converted(table, text)
  {
    result := text;
    for i := 0 to |table|
      invariant result == ApplyPass(Phrases, table[..i], text)
    {
      var (key, value) := table[i];
      assert table[..i + 1][..i] == table[..i];
      if |key| > 1 {
        result := ReplaceAll(result, key, value);
      }
    }
    assert table[..|table|] == table;
    ghost var afterPhrases := result;
    for i := 0 to |table|
      invariant result == ApplyPass(Characters, table[..i], afterPhrases)
    {
      var (key, value) := table[i];
      assert table[..i + 1][..i] == table[..i];
      if |key| == 1 {
        result := ReplaceAll(result, key, value);
      }
    }
  }

  /** `traditionalToSimplifiedChinese`: never changes the length of the text. */
  method TraditionalToSimplifiedChinese(text: string) returns (result: string)
    ensures result == Converted(Forward, text)
    ensures |result| == |text|
  {
    result := Convert(Forward, text);
    TablesSameLengths();
    ConvertedLength(Forward, text);
  }

  /** `simplifiedToTraditionalChinese`: never changes the length of the text. */
  method SimplifiedToTraditionalChinese(text: string) returns (result: string)
    ensures result == Converted(Reverse, text)
    ensures |result| == |text|
  {
    result := Convert(Reverse, text);
    TablesSameLengths();
    ConvertedLength(Reverse, text);
  }

  /** The entries of `table` that `pass` selects, in table order. */
  function SelectedEntries(pass: Pass, table: seq<Entry>): (r: seq<Entry>)
    ensures forall e :: e in r <==> e in table && Selects(pass, e.0)
  {
    if table == [] then []
    else
      var rest := SelectedEntries(pass, table[..|table| - 1]);
      assert table == table[..|table| - 1] + [table[|table| - 1]];
      if Selects(pass, table[|table| - 1].0) then rest + [table[|table| - 1]] else rest
  }

  /** Every entry in turn replaces all occurrences of its key by its value. */
  function ReplaceEach(entries: seq<Entry>, text: string): string
    requires forall e :: e in entries ==> |e.0| > 0
  {
    if entries == [] then text
    else
      var last := entries[|entries| - 1];
      ReplaceAll(ReplaceEach(entries[..|entries| - 1], text), last.0, last.1)
  }

  /** A pass is the replacement by each selected entry, in table order, and by no other. */
  lemma {:induction false} PassReplacesSelectedEntries(pass: Pass, table: seq<Entry>, text: string)
    ensures forall e :: e in SelectedEntries(pass, table) ==> |e.0| > 0
    ensures ApplyPass(pass, table, text) == ReplaceEach(SelectedEntries(pass, table), text)
  {
    if table != [] {
      PassReplacesSelectedEntries(pass, table[..|table| - 1], text);
    }
  }

  /**
   * Every phrase entry is applied to the whole text before any
   * single-character entry is applied.
   */
  lemma PhrasesBeforeCharacters(table: seq<Entry>, text: string)
    ensures forall e :: e in SelectedEntries(Phrases, table) ==> |e.0| > 1
    ensures forall e :: e in SelectedEntries(Characters, table) ==> |e.0| == 1
    ensures Converted(table, text)
            == ReplaceEach(SelectedEntries(Characters, table), ReplaceEach(SelectedEntries(Phrases, table), text))
  {
    PassReplacesSelectedEntries(Phrases, table, text);
    PassReplacesSelectedEntries(Characters, table, ApplyPass(Phrases, table, text));
  }

  /** A text holding none of the keys of the entries a pass changes something with comes back unchanged. */
  lemma {:induction false} PassLeavesUnmapped(pass: Pass, table: seq<Entry>, text: string)
    requires forall e :: e in table && Selects(pass, e.0) && e.0 != e.1 ==> !Includes(text, e.0)
    ensures ApplyPass(pass, table, text) == text
  {
    if table != [] {
      var (key, value) := table[|table| - 1];
      PassLeavesUnmapped(pass, table[..|table| - 1], text);
      if Selects(pass, key) {
        if key == value {
          ReplaceAllIdentity(text, key);
        } else {
          ReplaceAllAbsent(text, key, value);
        }
      }
    }
  }

  /**
   * Unmapped text passes through: a text containing no key of a
   * non-identity entry is returned unchanged by a conversion.
   */
  lemma ConvertedLeavesUnmapped(table: seq<Entry>, text: string)
    requires forall e :: e in table && |e.0| > 0 && e.0 != e.1 ==> !Includes(text, e.0)
    ensures Converted(table, text) == text
  {
    PassLeavesUnmapped(Phrases, table, text);
    PassLeavesUnmapped(Characters, table, text);
  }

  /** The table without its identity entries such as `'言': '言'`. */
  function WithoutIdentities(table: seq<Entry>): (r: seq<Entry>)
    ensures forall e :: e in r <==> e in table && e.0 != e.1
  {
    if table == [] then []
    else
      var rest := WithoutIdentities(table[..|table| - 1]);
      var last := table[|table| - 1];
      assert table == table[..|table| - 1] + [last];
      if last.0 != last.1 then rest + [last] else rest
  }

  /** Identity entries have no effect on a pass. */
  lemma {:induction false} PassIgnoresIdentities(pass: Pass, table: seq<Entry>, text: string)
    ensures ApplyPass(pass, table, text) == ApplyPass(pass, WithoutIdentities(table), text)
  {
    if table != [] {
      var prefix, last := table[..|table| - 1], table[|table| - 1];
      PassIgnoresIdentities(pass, prefix, text);
      var rest := WithoutIdentities(prefix);
      if last.0 != last.1 {
        assert (rest + [last])[..|rest|] == rest;
      } else if Selects(pass, last.0) {
        ReplaceAllIdentity(ApplyPass(pass, prefix, text), last.0);
      }
    }
  }

  /** Identity entries have no effect on a conversion. */
  lemma ConvertedIgnoresIdentities(table: seq<Entry>, text: string)
    ensures Converted(table, text) == Converted(WithoutIdentities(table), text)
  {
    PassIgnoresIdentities(Phrases, table, text);
    PassIgnoresIdentities(Characters, table, ApplyPass(Phrases, table, text));
  }

  /** A pass over a table whose keys and values have equal lengths keeps the length of the text. */
  lemma {:induction false} PassLength(pass: Pass, table: seq<Entry>, text: string)
    requires ScriptTable.SameLengths(table)
    ensures |ApplyPass(pass, table, text)| == |text|
  {
    if table != [] {
      var prefix := table[..|table| - 1];
      assert forall e :: e in prefix ==> e in table;
      PassLength(pass, prefix, text);
      var (key, value) := table[|table| - 1];
      if Selects(pass, key) {
        ReplaceAllSameLength(ApplyPass(pass, prefix, text), key, value);
      }
    }
  }

  /** A conversion over a table whose keys and values have equal lengths keeps the length of the text. */
  lemma ConvertedLength(table: seq<Entry>, text: string)
    requires ScriptTable.SameLengths(table)
    ensures |Converted(table, text)| == |text|
  {
    PassLength(Phrases, table, text);
    PassLength(Characters, table, ApplyPass(Phrases, table, text));
  }

  // ----- Search variants and matching

  /** `Set.prototype.add` on an insertion-ordered set of strings. */
  function SetAdd(members: seq<string>, x: string): seq<string> {
    if x in members then members else members + [x]
  }

  /**
   * The variants of a query: the query itself, then its simplified and its
   * traditional form, each only when it differs from the query and from the
   * variants already present.
   */
  function SearchVariants(query: string): (variants: seq<string>)
    ensures 1 <= |variants| <= 3 && variants[0] == query
    ensures forall i, j :: 0 <= i < j < |variants| ==> variants[i] != variants[j]
    ensures forall v :: v in variants <==> v == query || v == Converted(Forward, query) || v == Converted(Reverse, query)
  {
    VariantsOf(query, Converted(Forward, query), Converted(Reverse, query))
  }

  /**
   * The variants built from a query and its two converted forms. The `Set`
   * keeps insertion order: the simplified form, when new, comes right after
   * the query, and the traditional form, when new, comes last.
   */
  function VariantsOf(query: string, simplified: string, traditional: string): (variants: seq<string>)
    ensures 1 <= |variants| <= 3 && variants[0] == query
    ensures forall i, j :: 0 <= i < j < |variants| ==> variants[i] != variants[j]
    ensures forall v :: v in variants <==> v == query || v == simplified || v == traditional
    ensures simplified != query ==> |variants| >= 2 && variants[1] == simplified
    ensures traditional != query && traditional != simplified ==> variants[|variants| - 1] == traditional
  {
    var withSimplified := if simplified != query then SetAdd([query], simplified) else [query];
    if traditional != query then SetAdd(withSimplified, traditional) else withSimplified
  }

  /** `generateSearchVariants`. */
  method GenerateSearchVariants(query: string) returns (variants: seq<string>)
    ensures variants == SearchVariants(query)
  {
    variants := [];
    variants := SetAdd(variants, query);
    assert variants == [query];
    var simplified := TraditionalToSimplifiedChinese(query);
    assert simplified == Converted(Forward, query);
    if simplified != query {
      variants := SetAdd(variants, simplified);
    }
    var traditional := SimplifiedToTraditionalChinese(query);
    if traditional != query {
      variants := SetAdd(variants, traditional);
    }
    assert variants == VariantsOf(query, simplified, traditional);
  }

  /** Some variant of the text, lower-cased, includes some variant of the query, lower-cased. */
  predicate VariantsMatch(text: string, query: string, lower: string -> string) {
    SomeVariantIncludes(SearchVariants(query), SearchVariants(text), lower)
  }

  /** Some text variant, lower-cased, includes some query variant, lower-cased. */
  predicate SomeVariantIncludes(searchVariants: seq<string>, textVariants: seq<string>, lower: string -> string) {
    exists i, j :: 0 <= i < |searchVariants| && 0 <= j < |textVariants|
                   && Includes(lower(textVariants[j]), lower(searchVariants[i]))
  }

  /**
   * `matchesQuery`, with `toLowerCase` as the parameter `lower`. The text and
   * the query are themselves variants, so a text whose lower-cased form
   * includes the lower-cased query always matches.
   */
  method MatchesQuery(text: string, query: string, lower: string -> string) returns (matched: bool)
    ensures matched <==> VariantsMatch(text, query, lower)
    ensures Includes(lower(text), lower(query)) ==> matched
    ensures lower(query) == "" ==> matched
  {
    var searchVariants := GenerateSearchVariants(query);
    var textVariants := GenerateSearchVariants(text);
    matched := AnyIncludes(searchVariants, textVariants, lower);
    IncludesSelfAndEmpty(lower(text));
    assert Includes(lower(text), lower(query)) ==> SomeVariantIncludes(searchVariants, textVariants, lower) by {
      assert searchVariants[0] == query && textVariants[0] == text;
    }
  }

  /** The two nested loops of `matchesQuery`: does some text variant include some query variant? */
  method AnyIncludes(searchVariants: seq<string>, textVariants: seq<string>, lower: string -> string)
    returns (found: bool)
    ensures found <==> SomeVariantIncludes(searchVariants, textVariants, lower)
  {
    for i := 0 to |searchVariants|
      invariant forall i', j :: 0 <= i' < i && 0 <= j < |textVariants|
                                ==> !Includes(lower(textVariants[j]), lower(searchVariants[i']))
    {
      for j := 0 to |textVariants|
        invariant forall j' :: 0 <= j' < j ==> !Includes(lower(textVariants[j']), lower(searchVariants[i]))
      {
        if Includes(lower(textVariants[j]), lower(searchVariants[i])) {
          return true;
        }
      }
    }
    return false;
  }
}
