/**
 * The string operations the services rely on: `string.IsNullOrWhiteSpace`,
 * `string.IsNullOrEmpty`, ordinal case-insensitive equality and containment, and the
 * ordinal order used to sort by name.
 */
module Text {

  /** `char.IsWhiteSpace`: Unicode space, line and paragraph separators, U+0009..U+000D, U+0085. */
  predicate IsWhiteSpace(c: char) {
    var n := c as int;
    || n == 0x20 || (0x09 <= n <= 0x0D) || n == 0x85 || n == 0xA0 || n == 0x1680
    || (0x2000 <= n <= 0x200A) || n == 0x2028 || n == 0x2029 || n == 0x202F
    || n == 0x205F || n == 0x3000
  }

  /** `string.IsNullOrWhiteSpace` (a null string is not modelled; it behaves like ""). */
  predicate IsNullOrWhiteSpace(s: string) {
    forall i :: 0 <= i < |s| ==> IsWhiteSpace(s[i])
  }

  /** `string.IsNullOrEmpty` (a null string is not modelled; it behaves like ""). */
  predicate IsNullOrEmpty(s: string) {
    |s| == 0
  }

  /** The upper-case mapping `OrdinalIgnoreCase` compares by, over ASCII letters. */
  function UpperChar(c: char): char {
    if 'a' <= c <= 'z' then (c as int - 32) as char else c
  }

  function Upper(s: string): (r: string)
    ensures |r| == |s|
    ensures forall i :: 0 <= i < |s| ==> r[i] == UpperChar(s[i])
  {
    seq(|s|, i requires 0 <= i < |s| => UpperChar(s[i]))
  }

  /** `a.Equals(b, StringComparison.OrdinalIgnoreCase)`. */
  predicate EqualsIgnoreCase(a: string, b: string) {
    Upper(a) == Upper(b)
  }

  /** `term` occurs in `s` starting at position `i`. */
  predicate OccursAt(s: string, term: string, i: nat) {
    i + |term| <= |s| && s[i..i + |term|] == term
  }

  /** `s.Contains(term)` with ordinal comparison: `term` occurs in `s` at some position. */
  function Contains(s: string, term: string): (b: bool)
    ensures b <==> exists i: nat :: OccursAt(s, term, i)
    decreases |s|
  {
    if |term| > |s| then false
    else if s[..|term|] == term then
      assert OccursAt(s, term, 0);
      true
    else
      var b := Contains(s[1..], term);
      assert forall i: nat :: OccursAt(s[1..], term, i) <==> OccursAt(s, term, i + 1) by {
        forall i: nat ensures OccursAt(s[1..], term, i) <==> OccursAt(s, term, i + 1) {
          if i + 1 + |term| <= |s| {
            assert s[1..][i..i + |term|] == s[i + 1..i + 1 + |term|];
          }
        }
      }
      assert !OccursAt(s, term, 0);
      assert (exists i: nat :: OccursAt(s, term, i)) ==> exists i: nat :: OccursAt(s[1..], term, i) by {
        if exists i: nat :: OccursAt(s, term, i) {
          var i: nat :| OccursAt(s, term, i);
          assert OccursAt(s[1..], term, i - 1);
        }
      }
      b
  }

  /** `s.Contains(term, StringComparison.OrdinalIgnoreCase)`. */
  predicate ContainsIgnoreCase(s: string, term: string) {
    Contains(Upper(s), Upper(term))
  }

  /** Ordinal (character-code) order on strings: lexicographic, a prefix first. */
  predicate OrdinalLe(a: string, b: string)
    decreases |a|
  {
    |a| == 0 || (|b| > 0 && (a[0] < b[0] || (a[0] == b[0] && OrdinalLe(a[1..], b[1..]))))
  }

  /** Any two strings are ordered one way or the other. */
  lemma {:induction false} OrdinalLeTotal(a: string, b: string)
    ensures OrdinalLe(a, b) || OrdinalLe(b, a)
    decreases |a|
  {
    if |a| > 0 && |b| > 0 && a[0] == b[0] {
      OrdinalLeTotal(a[1..], b[1..]);
    }
  }

  /** The ordinal order is transitive. */
  lemma {:induction false} OrdinalLeTrans(a: string, b: string, c: string)
    requires OrdinalLe(a, b) && OrdinalLe(b, c)
    ensures OrdinalLe(a, c)
    decreases |a|
  {
    if |a| > 0 && a[0] == b[0] && b[0] == c[0] {
      OrdinalLeTrans(a[1..], b[1..], c[1..]);
    }
  }

  ghost predicate SortedBy<T>(s: seq<T>, key: T -> string) {
    forall i, j :: 0 <= i < j < |s| ==> OrdinalLe(key(s[i]), key(s[j]))
  }

  /** Inserts `x` before the first element whose key is not below it. */
  function Insert<T>(x: T, s: seq<T>, key: T -> string): (r: seq<T>)
    ensures multiset(r) == multiset(s) + multiset{x}
    ensures SortedBy(s, key) ==> SortedBy(r, key)
  {
    if |s| == 0 then [x]
    else if OrdinalLe(key(x), key(s[0])) then
      var r := [x] + s;
      assert SortedBy(s, key) ==> SortedBy(r, key) by {
        if SortedBy(s, key) {
          forall j | 1 <= j < |r| ensures OrdinalLe(key(x), key(r[j])) {
            if j > 1 { OrdinalLeTrans(key(x), key(s[0]), key(s[j - 1])); }
          }
        }
      }
      r
    else
      var rest := Insert(x, s[1..], key);
      var r := [s[0]] + rest;
      assert s == [s[0]] + s[1..];
      assert SortedBy(s, key) ==> SortedBy(r, key) by {
        if SortedBy(s, key) {
          OrdinalLeTotal(key(x), key(s[0]));
          forall j | 0 <= j < |rest| ensures OrdinalLe(key(s[0]), key(rest[j])) {
            assert rest[j] in multiset(rest);
            if rest[j] in multiset(s[1..]) {
              var k :| 0 <= k < |s[1..]| && s[1..][k] == rest[j];
              assert s[k + 1] == rest[j];
            }
          }
        }
      }
      r
  }

  /** LINQ `OrderBy(key)` under ordinal order: a sorted permutation of `s`. */
  function OrderBy<T>(s: seq<T>, key: T -> string): (r: seq<T>)
    ensures SortedBy(r, key)
    ensures multiset(r) == multiset(s)
  {
    if |s| == 0 then []
    else
      assert s == [s[0]] + s[1..];
      Insert(s[0], OrderBy(s[1..], key), key)
  }
}
