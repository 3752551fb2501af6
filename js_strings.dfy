/**
 * The JavaScript string operations the search core relies on, stated over
 * `string` = `seq<char>`: `includes`, a global literal `replace`/`replaceAll`,
 * `trim`, the `\s` character class and the `<`/`>` comparison of strings.
 */
module JsStrings {

  /** `sub` occurs in `s` starting at index `i`. */
  predicate OccursAt(s: string, sub: string, i: nat) {
    i + |sub| <= |s| && s[i..i + |sub|] == sub
  }

  /** `s.includes(sub)`; the empty string occurs in every string. */
  predicate Includes(s: string, sub: string) {
    exists i: nat | i <= |s| :: OccursAt(s, sub, i)
  }

  /** An occurrence in the tail of `s` is an occurrence in `s`, one index further on. */
  lemma OccursInTail(s: string, sub: string, i: nat)
    requires |s| > 0
    ensures OccursAt(s[1..], sub, i) <==> OccursAt(s, sub, i + 1)
  {
    if i + 1 + |sub| <= |s| {
      assert s[1..][i..i + |sub|] == s[i + 1..i + 1 + |sub|];
    }
  }

  /** Every string includes itself and the empty string. */
  lemma IncludesSelfAndEmpty(s: string)
    ensures Includes(s, s) && Includes(s, "")
  {
    assert OccursAt(s, s, 0);
    assert OccursAt(s, "", 0);
  }

  /** Where `key` does not start `s`, it occurs in `s` exactly when it occurs in the tail of `s`. */
  lemma IncludesTail(s: string, key: string)
    requires |s| > 0 && !OccursAt(s, key, 0)
    ensures Includes(s, key) <==> Includes(s[1..], key)
  {
    if Includes(s, key) {
      var i: nat :| i <= |s| && OccursAt(s, key, i);
      OccursInTail(s, key, i - 1);
    }
    if Includes(s[1..], key) {
      var i: nat :| i <= |s[1..]| && OccursAt(s[1..], key, i);
      OccursInTail(s, key, i);
    }
  }

  /**
   * `s.replace(new RegExp(key, 'g'), val)` for a `key` without regular-expression
   * metacharacters, which is also `s.replaceAll(key, val)`: scanning from the
   * left, each occurrence of `key` is replaced by `val` and scanning resumes
   * after it, so occurrences never overlap and replaced text is not rescanned.
   */
  function ReplaceAll(s: string, key: string, val: string): string
    requires |key| > 0
    decreases |s|
  {
    if |s| < |key| then s
    else if s[..|key|] == key then val + ReplaceAll(s[|key|..], key, val)
    else [s[0]] + ReplaceAll(s[1..], key, val)
  }

  /** A string in which `key` does not occur comes back unchanged. */
  lemma {:induction false} ReplaceAllAbsent(s: string, key: string, val: string)
    requires |key| > 0 && !Includes(s, key)
    ensures ReplaceAll(s, key, val) == s
    decreases |s|
  {
    if |s| >= |key| {
      assert !OccursAt(s, key, 0);
      forall i: nat
        ensures !OccursAt(s[1..], key, i)
      {
        OccursInTail(s, key, i);
      }
      ReplaceAllAbsent(s[1..], key, val);
      assert [s[0]] + s[1..] == s;
    }
  }

  /** Replacing by a value of the key's length keeps the length of the string. */
  lemma {:induction false} ReplaceAllSameLength(s: string, key: string, val: string)
    requires |key| > 0 && |key| == |val|
    ensures |ReplaceAll(s, key, val)| == |s|
    decreases |s|
  {
    if |s| >= |key| {
      if s[..|key|] == key {
        ReplaceAllSameLength(s[|key|..], key, val);
      } else {
        ReplaceAllSameLength(s[1..], key, val);
      }
    }
  }

  /** Replacing a key by itself changes nothing. */
  lemma {:induction false} ReplaceAllIdentity(s: string, key: string)
    requires |key| > 0
    ensures ReplaceAll(s, key, key) == s
    decreases |s|
  {
    if |s| >= |key| {
      if s[..|key|] == key {
        ReplaceAllIdentity(s[|key|..], key);
        assert s[..|key|] + s[|key|..] == s;
      } else {
        ReplaceAllIdentity(s[1..], key);
        assert [s[0]] + s[1..] == s;
      }
    }
  }

  /** For a key and a different value of equal length, the string changes exactly when the key occurs in it. */
  lemma {:induction false} ReplaceAllChanges(s: string, key: string, val: string)
    requires |key| > 0 && |key| == |val| && key != val
    ensures ReplaceAll(s, key, val) != s <==> Includes(s, key)
    decreases |s|
  {
    if |s| < |key| {
      ReplaceAllAbsent(s, key, val);
    } else if s[..|key|] == key {
      assert OccursAt(s, key, 0);
      assert ReplaceAll(s, key, val)[..|key|] == val;
    } else {
      assert !OccursAt(s, key, 0);
      IncludesTail(s, key);
      ReplaceAllChanges(s[1..], key, val);
      assert s == [s[0]] + s[1..];
    }
  }

  /**
   * `a < b` on JavaScript strings: lexicographic order of the characters,
   * a proper prefix before any longer string.
   */
  predicate LexLess(a: string, b: string)
    decreases |a|
  {
    if |a| == 0 then |b| > 0
    else |b| > 0 && (a[0] < b[0] || (a[0] == b[0] && LexLess(a[1..], b[1..])))
  }

  /** `<` on strings is a strict total order: exactly one of `a == b`, `a < b`, `b < a` holds. */
  lemma {:induction false} LexLessTrichotomy(a: string, b: string)
    ensures !(LexLess(a, b) && LexLess(b, a))
    ensures a != b <==> LexLess(a, b) || LexLess(b, a)
    decreases |a|
  {
    if |a| > 0 && |b| > 0 && a[0] == b[0] {
      LexLessTrichotomy(a[1..], b[1..]);
      assert a == [a[0]] + a[1..] && b == [b[0]] + b[1..];
    }
  }

  /**
   * The characters `trim()` removes and the pattern `\s` matches: the
   * WhiteSpace and LineTerminator characters of ECMAScript.
   */
  predicate IsWhitespace(c: char) {
    || c == '\t' || c == '\n' || c == '\U{000B}' || c == '\U{000C}' || c == '\r'
    || c == ' ' || c == '\U{00A0}' || c == '\U{1680}' || ('\U{2000}' <= c <= '\U{200A}')
    || c == '\U{2028}' || c == '\U{2029}' || c == '\U{202F}' || c == '\U{205F}'
    || c == '\U{3000}' || c == '\U{FEFF}'
  }

  /** `s` with its leading whitespace removed. */
  function TrimStart(s: string): (r: string)
    ensures |r| <= |s| && r == s[|s| - |r|..]
    ensures forall k :: 0 <= k < |s| - |r| ==> IsWhitespace(s[k])
    ensures r == [] || !IsWhitespace(r[0])
    decreases |s|
  {
    if |s| > 0 && IsWhitespace(s[0]) then TrimStart(s[1..]) else s
  }

  /** `s` with its trailing whitespace removed. */
  function TrimEnd(s: string): (r: string)
    ensures |r| <= |s| && r == s[..|r|]
    ensures forall k :: |r| <= k < |s| ==> IsWhitespace(s[k])
    ensures r == [] || !IsWhitespace(r[|r| - 1])
    decreases |s|
  {
    if |s| > 0 && IsWhitespace(s[|s| - 1]) then TrimEnd(s[..|s| - 1]) else s
  }

  /**
   * `s.trim()`: `s` without its leading and trailing whitespace (TrimIsSlice
   * states that it is a slice of `s` with only whitespace outside it).
   */
  function Trim(s: string): (r: string)
    ensures r == [] || (!IsWhitespace(r[0]) && !IsWhitespace(r[|r| - 1]))
    ensures r == [] <==> forall k :: 0 <= k < |s| ==> IsWhitespace(s[k])
  {
    TrimEnds(s);
    TrimEnd(TrimStart(s))
  }

  /** Trimming leaves no whitespace at either end, and leaves nothing exactly of a string of whitespace. */
  lemma TrimEnds(s: string)
    ensures var r := TrimEnd(TrimStart(s));
      && (r == [] || (!IsWhitespace(r[0]) && !IsWhitespace(r[|r| - 1])))
      && (r == [] <==> forall k :: 0 <= k < |s| ==> IsWhitespace(s[k]))
  {
    var t := TrimStart(s);
    var r := TrimEnd(t);
    if r != [] {
      assert r[0] == t[0];
      assert t[0] == s[|s| - |t|];
    } else {
      assert t == [];
    }
  }

  /** `s.trim()` is a slice of `s` with only whitespace outside it. */
  lemma TrimIsSlice(s: string)
    ensures exists i, j :: 0 <= i <= j <= |s| && TrimmedAt(s, i, j) && Trim(s) == s[i..j]
  {
    var t := TrimStart(s);
    var r := TrimEnd(t);
    var i := |s| - |t|;
    var j := i + |r|;
    forall k | j <= k < |s|
      ensures IsWhitespace(s[k])
    {
      assert s[k] == t[k - i];
    }
    assert r == s[i..j];
    assert TrimmedAt(s, i, j);
  }

  /** Everything of `s` before index `i` and from index `j` on is whitespace. */
  predicate TrimmedAt(s: string, i: int, j: int)
    requires 0 <= i <= j <= |s|
  {
    (forall k :: 0 <= k < i ==> IsWhitespace(s[k])) && (forall k :: j <= k < |s| ==> IsWhitespace(s[k]))
  }
}
