/**
 * Paging arithmetic shared by the services: C# `int` wrap-around, LINQ `Skip`/`Take`
 * and the ceiling division that replaces `(int)Math.Ceiling((double)n / size)`.
 */
module Paging {

  const MinInt32: int := -0x8000_0000
  const MaxInt32: int := 0x7FFF_FFFF

  /** A C# `int`. */
  type Int32 = x: int | MinInt32 <= x <= MaxInt32

  /** The value C# computes for `x` in an unchecked `int` context (two's-complement wrap). */
  function Wrap32(x: int): (r: Int32)
    ensures (r - x) % 0x1_0000_0000 == 0
    ensures MinInt32 <= x <= MaxInt32 ==> r == x
  {
    (x - MinInt32) % 0x1_0000_0000 + MinInt32
  }

  function Max0(x: int): nat {
    if x < 0 then 0 else x
  }

  function Min(x: int, y: int): int {
    if x <= y then x else y
  }

  /** LINQ `Skip(n)`: a count of zero or less skips nothing. */
  function Skip<T>(s: seq<T>, n: int): seq<T> {
    if n <= 0 then s else if n >= |s| then [] else s[n..]
  }

  /** LINQ `Take(n)`: a count of zero or less takes nothing. */
  function Take<T>(s: seq<T>, n: int): seq<T> {
    if n <= 0 then [] else if n >= |s| then s else s[..n]
  }

  /**
   * `.Skip(skip).Take(take)`: the window of at most `take` elements that starts at
   * position `skip` (or 0 when `skip` is negative).
   */
  function Page<T>(s: seq<T>, skip: int, take: int): (r: seq<T>)
    ensures |r| == Min(Max0(take), Max0(|s| - Max0(skip)))
    ensures forall i :: 0 <= i < |r| ==> Max0(skip) + i < |s| && r[i] == s[Max0(skip) + i]
  {
    Take(Skip(s, skip), take)
  }

  /** The page number `(pageNumber - 1) * pageSize` asks to skip, as C# computes it. */
  function SkipCount(pageNumber: Int32, pageSize: Int32): Int32 {
    Wrap32(Wrap32(pageNumber - 1) * pageSize)
  }

  /** When the product does not overflow, the skip count is the exact product. */
  lemma SkipCountExact(pageNumber: Int32, pageSize: Int32)
    requires 1 <= pageNumber && 1 <= pageSize
    requires (pageNumber - 1) * pageSize <= MaxInt32
    ensures SkipCount(pageNumber, pageSize) == (pageNumber - 1) * pageSize
  {
  }

  /** A page number below one that does not overflow asks to skip a negative count. */
  lemma SkipCountNegative(pageNumber: Int32, pageSize: Int32)
    requires pageNumber < 1 && 1 <= pageSize
    requires MinInt32 <= (pageNumber - 1) * pageSize
    ensures SkipCount(pageNumber, pageSize) == (pageNumber - 1) * pageSize < 0
  {
    MulMonotone(1, pageSize, 1 - pageNumber);
    assert (pageNumber - 1) * pageSize == -(pageSize * (1 - pageNumber));
  }

  /**
   * The page a paged query returns: a run of at most `pageSize` elements. Without overflow
   * the skip count is `(pageNumber - 1) * pageSize`, the page is the run from there, and it
   * is empty exactly when the skip count reaches past the end.
   */
  lemma PageOf<T>(s: seq<T>, pageNumber: Int32, pageSize: Int32)
    requires 1 <= pageNumber && 1 <= pageSize
    ensures var r := Page(s, SkipCount(pageNumber, pageSize), pageSize);
      && |r| <= pageSize
      && (exists k :: Window(s, k, r))
      && ((pageNumber - 1) * pageSize <= MaxInt32 ==>
            var skip := (pageNumber - 1) * pageSize;
            && SkipCount(pageNumber, pageSize) == skip
            && (skip < |s| ==> Window(s, skip, r) && |r| == Min(pageSize, |s| - skip))
            && (|s| <= skip ==> |r| == 0))
  {
    var r := Page(s, SkipCount(pageNumber, pageSize), pageSize);
    var k := Max0(SkipCount(pageNumber, pageSize));
    if k < |s| {
      assert Window(s, k, r);
    } else {
      assert Window(s, 0, r);
    }
    if (pageNumber - 1) * pageSize <= MaxInt32 {
      MulMonotone(0, pageNumber - 1, pageSize);
      SkipCountExact(pageNumber, pageSize);
    }
  }

  /** The quotient of `k` by `size`, by repeated subtraction. */
  lemma {:induction false} Quotient(k: nat, size: int) returns (q: nat)
    requires 1 <= size
    ensures q <= k && q * size <= k < q * size + size
    decreases k
  {
    if k < size {
      q := 0;
    } else {
      var q' := Quotient(k - size, size);
      q := q' + 1;
      assert q * size == q' * size + size;
    }
  }

  /** Element `k` of a sequence an `int` can count lies on some page. */
  lemma PageContaining<T>(s: seq<T>, k: int, size: Int32) returns (p: Int32, i: nat)
    requires 0 <= k < |s| <= MaxInt32 && 1 <= size
    ensures 1 <= p && i < |Page(s, SkipCount(p, size), size)| && Page(s, SkipCount(p, size), size)[i] == s[k]
  {
    var q := Quotient(k, size);
    p := q + 1;
    SkipCountExact(p, size);
    i := k - q * size;
  }

  /** A window at a non-negative offset holds the elements from that offset on. */
  lemma PageAt<T>(s: seq<T>, skip: nat, take: nat)
    ensures var r := Page(s, skip, take);
      && (forall i :: 0 <= i < |r| ==> r[i] == s[skip + i])
      && (take > 0 ==> (|r| == 0 <==> |s| <= skip))
  {
  }

  /** Ceiling of `n / d`, the page count `(int)Math.Ceiling((double)n / d)` for non-negative `n`. */
  function CeilDiv(n: nat, d: int): (r: nat)
    requires d > 0
    ensures r * d >= n
    ensures r == 0 || (r - 1) * d < n
  {
    var q := (n + d - 1) / d;
    assert q * d <= n + d - 1 < q * d + d;
    q
  }

  /** Multiplying by a positive number keeps the order. */
  lemma MulMonotone(a: int, b: int, d: int)
    requires a <= b && d > 0
    ensures a * d <= b * d
  {
  }

  /** Ceiling division gives the number of pages needed: `n` fits in `r` pages of `d` and not in fewer. */
  lemma CeilDivIsLeast(n: nat, d: int, pages: nat)
    requires d > 0 && pages * d >= n
    ensures CeilDiv(n, d) <= pages
  {
    var r := CeilDiv(n, d);
    if r > pages {
      MulMonotone(pages, r - 1, d);
    }
  }

  /** There are never more pages than elements. */
  lemma CeilDivBound(n: nat, d: int)
    requires d > 0
    ensures CeilDiv(n, d) <= n
  {
    var r := CeilDiv(n, d);
    if r > 1 {
      MulMonotone(1, d, r - 1);
    }
  }

  /** `r` is the run of `s` that starts at position `k`. */
  predicate Window<T(==)>(s: seq<T>, k: int, r: seq<T>) {
    0 <= k && k + |r| <= |s| && r == s[k..k + |r|]
  }

  /**
   * What a page after clamping satisfies: a page number below 1 counts as 1 and one past the
   * last page as the last page. The page is a run of `s` of at most `size` elements, never
   * empty unless `s` is; a page number in range gets exactly its run, and one past the end
   * gets the last page.
   */
  ghost predicate ClampedPage<T>(s: seq<T>, pageNumber: int, size: int, r: seq<T>)
    requires 1 <= size
  {
    var p := if pageNumber < 1 then 1 else pageNumber;
    && |r| <= size
    && (exists k :: Window(s, k, r))
    && (|s| > 0 ==> |r| > 0)
    && ((p - 1) * size < |s| ==> Window(s, (p - 1) * size, r) && |r| == Min(size, |s| - (p - 1) * size))
    && (|s| > 0 && 1 <= pageNumber && (pageNumber - 1) * size >= |s| ==>
        Window(s, (CeilDiv(|s|, size) - 1) * size, r) && (CeilDiv(|s|, size) - 1) * size + |r| == |s|)
  }

  /** Clamping the page number and then paging yields a `ClampedPage`. */
  lemma ClampedWindow<T>(s: seq<T>, pageNumber: int, number: Int32, size: Int32)
    requires 1 <= size && |s| <= MaxInt32
    requires var p := if pageNumber < 1 then 1 else pageNumber;
      number == if p > CeilDiv(|s|, size) then CeilDiv(|s|, size) else p
    ensures ClampedPage(s, pageNumber, size, Page(s, SkipCount(number, size), size))
  {
    var pages := CeilDiv(|s|, size);
    CeilDivBound(|s|, size);
    var p := if pageNumber < 1 then 1 else pageNumber;
    var r := Page(s, SkipCount(number, size), size);
    if |s| == 0 {
      SkipCountNegative(number, size);
      assert Window(s, 0, r);
      MulMonotone(0, p - 1, size);
    } else {
      InRange(|s|, p, size);
      InRange(|s|, pages, size);
      PageInRange(s, number, size);
    }
  }

  /** A page number from 1 to the page count selects the run from `(number - 1) * size` on; the last one runs to the end. */
  lemma PageInRange<T>(s: seq<T>, number: Int32, size: Int32)
    requires 1 <= size && |s| <= MaxInt32
    requires 1 <= number <= CeilDiv(|s|, size)
    ensures var skip := (number - 1) * size;
      var r := Page(s, SkipCount(number, size), size);
      && SkipCount(number, size) == skip < |s|
      && Window(s, skip, r) && |r| == Min(size, |s| - skip) && 0 < |r|
      && (number == CeilDiv(|s|, size) ==> skip + |r| == |s|)
  {
    InRange(|s|, number, size);
    MulMonotone(0, number - 1, size);
    var skip := (number - 1) * size;
    SkipCountExact(number, size);
    PageAt(s, skip, size);
    assert skip + size == number * size;
  }

  /** Page `p` starts inside `n` elements exactly when `p` is at most the page count. */
  lemma InRange(n: nat, p: int, size: int)
    requires 1 <= size && 1 <= p
    ensures (p - 1) * size < n <==> p <= CeilDiv(n, size)
  {
    var pages := CeilDiv(n, size);
    if p > pages {
      MulMonotone(pages, p - 1, size);
    } else if pages > 0 {
      MulMonotone(p - 1, pages - 1, size);
    }
  }
}
