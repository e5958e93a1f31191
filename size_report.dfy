// Shared pieces of the three package-size reports: the stable descending
// sort `list.sort(key=..., reverse=True)` and `sorted(..., key=-size)`,
// threshold buckets, and the `format_size` helpers.

module SizeReport {

  const KiB: nat := 1024
  const MiB: nat := 1024 * 1024

  // ---------------------------------------------------------------------------
  // Stable sort, largest key first
  // ---------------------------------------------------------------------------

  predicate NonIncreasing<T>(s: seq<T>, key: T -> int) {
    forall i, j :: 0 <= i < j < |s| ==> key(s[i]) >= key(s[j])
  }

  /** Puts `x` in front of the first element whose key is not larger. */
  function Insert<T>(x: T, s: seq<T>, key: T -> int): (r: seq<T>)
    ensures |r| == |s| + 1
  {
    if s == [] then [x]
    else if key(s[0]) <= key(x) then [x] + s
    else [s[0]] + Insert(x, s[1..], key)
  }

  /**
   * Python's stable sort with `reverse=True`: every element is inserted into
   * the sorted rest ahead of the elements whose key it does not exceed, so
   * elements with equal keys keep their original order.
   */
  function SortDesc<T>(xs: seq<T>, key: T -> int): (r: seq<T>)
    ensures |r| == |xs|
  {
    if xs == [] then [] else Insert(xs[0], SortDesc(xs[1..], key), key)
  }

  /** The elements of `xs` whose key is `k`, in their original order. */
  function WithKey<T>(xs: seq<T>, key: T -> int, k: int): seq<T> {
    if xs == [] then []
    else (if key(xs[0]) == k then [xs[0]] else []) + WithKey(xs[1..], key, k)
  }

  lemma {:induction false} InsertMultiset<T>(x: T, s: seq<T>, key: T -> int)
    ensures multiset(Insert(x, s, key)) == multiset(s) + multiset{x}
    decreases |s|
  {
    if s != [] && key(s[0]) > key(x) {
      InsertMultiset(x, s[1..], key);
      assert s == [s[0]] + s[1..];
    }
  }

  lemma {:induction false} InsertBounded<T>(x: T, s: seq<T>, key: T -> int, c: int)
    requires key(x) <= c && forall i :: 0 <= i < |s| ==> key(s[i]) <= c
    ensures forall i :: 0 <= i < |Insert(x, s, key)| ==> key(Insert(x, s, key)[i]) <= c
    decreases |s|
  {
    if s != [] && key(s[0]) > key(x) {
      var t := s[1..];
      assert forall i :: 0 <= i < |t| ==> t[i] == s[i + 1];
      InsertBounded(x, t, key, c);
    }
  }

  lemma {:induction false} InsertKeepsOrder<T>(x: T, s: seq<T>, key: T -> int)
    requires NonIncreasing(s, key)
    ensures NonIncreasing(Insert(x, s, key), key)
    decreases |s|
  {
    if s != [] && key(s[0]) > key(x) {
      var t := s[1..];
      assert NonIncreasing(t, key) by {
        forall i, j | 0 <= i < j < |t| ensures key(t[i]) >= key(t[j]) {
          assert t[i] == s[i + 1] && t[j] == s[j + 1];
        }
      }
      InsertKeepsOrder(x, t, key);
      var u := Insert(x, t, key);
      assert forall i :: 0 <= i < |t| ==> key(t[i]) <= key(s[0]) by {
        forall i | 0 <= i < |t| ensures key(t[i]) <= key(s[0]) {
          assert t[i] == s[i + 1];
        }
      }
      InsertBounded(x, t, key, key(s[0]));
      var r := [s[0]] + u;
      forall i, j | 0 <= i < j < |r| ensures key(r[i]) >= key(r[j]) {
        assert r[j] == u[j - 1];
        if i > 0 {
          assert r[i] == u[i - 1];
        }
      }
    }
  }

  /** The sorted sequence is non-increasing and a permutation of the input. */
  lemma {:induction false} SortDescSorted<T>(xs: seq<T>, key: T -> int)
    ensures NonIncreasing(SortDesc(xs, key), key)
    ensures multiset(SortDesc(xs, key)) == multiset(xs)
  {
    if xs != [] {
      SortDescSorted(xs[1..], key);
      InsertKeepsOrder(xs[0], SortDesc(xs[1..], key), key);
      InsertMultiset(xs[0], SortDesc(xs[1..], key), key);
      assert xs == [xs[0]] + xs[1..];
    }
  }

  lemma WithKeyCons<T>(y: T, t: seq<T>, key: T -> int, k: int)
    ensures WithKey([y] + t, key, k) == (if key(y) == k then [y] else []) + WithKey(t, key, k)
  {
    assert ([y] + t)[0] == y && ([y] + t)[1..] == t;
  }

  lemma {:induction false} InsertWithKey<T>(x: T, s: seq<T>, key: T -> int, k: int)
    ensures WithKey(Insert(x, s, key), key, k)
         == (if key(x) == k then [x] else []) + WithKey(s, key, k)
    decreases |s|
  {
    if s == [] {
      WithKeyCons(x, s, key, k);
    } else if key(s[0]) <= key(x) {
      WithKeyCons(x, s, key, k);
    } else {
      var t := s[1..];
      var u := Insert(x, t, key);
      assert Insert(x, s, key) == [s[0]] + u;
      InsertWithKey(x, t, key, k);
      WithKeyCons(s[0], u, key, k);
      WithKeyCons(s[0], t, key, k);
      assert s == [s[0]] + t;
      if key(x) == k {
        assert key(s[0]) != k;
        assert WithKey(Insert(x, s, key), key, k) == [x] + WithKey(t, key, k);
      } else {
        assert WithKey(u, key, k) == WithKey(t, key, k);
      }
    }
  }

  /**
   * Stability: for every key value the sort keeps the elements with that key
   * in their original order.
   */
  lemma {:induction false} SortDescStable<T>(xs: seq<T>, key: T -> int, k: int)
    ensures WithKey(SortDesc(xs, key), key, k) == WithKey(xs, key, k)
  {
    if xs != [] {
      SortDescStable(xs[1..], key, k);
      InsertWithKey(xs[0], SortDesc(xs[1..], key), key, k);
    }
  }

  /** A sequence that is already in order is left as it is. */
  lemma {:induction false} SortDescOfSorted<T>(xs: seq<T>, key: T -> int)
    requires NonIncreasing(xs, key)
    ensures SortDesc(xs, key) == xs
  {
    if xs != [] {
      var t := xs[1..];
      assert NonIncreasing(t, key) by {
        forall i, j | 0 <= i < j < |t| ensures key(t[i]) >= key(t[j]) {
          assert t[i] == xs[i + 1] && t[j] == xs[j + 1];
        }
      }
      SortDescOfSorted(t, key);
      if t != [] {
        assert key(t[0]) <= key(xs[0]) by { assert t[0] == xs[1]; }
      }
      assert xs == [xs[0]] + t;
    }
  }

  // ---------------------------------------------------------------------------
  // Buckets
  // ---------------------------------------------------------------------------

  datatype Bucket = Large | Medium | Small

  /** `size > high` is large, else `size > low` is medium, else small. */
  function Classify(size: int, high: int, low: int): Bucket {
    if size > high then Large else if size > low then Medium else Small
  }

  /** A package name with the size its report sorts and buckets it by. */
  datatype Entry = Entry(pkg: string, size: int)

  function SizeOf(e: Entry): int { e.size }

  /** The entries whose size the classifier puts in bucket `b`, in order. */
  function Gather(es: seq<Entry>, classify: int -> Bucket, b: Bucket): (r: seq<Entry>)
    ensures |r| <= |es|
  {
    if es == [] then []
    else
      var g := Gather(es[..|es| - 1], classify, b);
      var last := es[|es| - 1];
      g + (if classify(last.size) == b then [last] else [])
  }

  /** Each occurrence of an entry is gathered into the bucket it classifies as, and only there. */
  lemma {:induction false} GatherCount(es: seq<Entry>, classify: int -> Bucket, b: Bucket, e: Entry)
    ensures multiset(Gather(es, classify, b))[e]
         == (if classify(e.size) == b then multiset(es)[e] else 0)
  {
    if es != [] {
      var init := es[..|es| - 1];
      GatherCount(init, classify, b, e);
      assert es == init + [es[|es| - 1]];
    }
  }

  /** Every entry is in exactly one of the three buckets. */
  lemma GatherPartition(es: seq<Entry>, classify: int -> Bucket)
    ensures multiset(Gather(es, classify, Large)) + multiset(Gather(es, classify, Medium))
            + multiset(Gather(es, classify, Small)) == multiset(es)
  {
    var l, m, sm := Gather(es, classify, Large), Gather(es, classify, Medium), Gather(es, classify, Small);
    forall e ensures (multiset(l) + multiset(m) + multiset(sm))[e] == multiset(es)[e] {
      GatherCount(es, classify, Large, e);
      GatherCount(es, classify, Medium, e);
      GatherCount(es, classify, Small, e);
    }
  }

  /** Hence the three bucket sizes add up to the number of entries. */
  lemma GatherCounts(es: seq<Entry>, classify: int -> Bucket)
    ensures |Gather(es, classify, Large)| + |Gather(es, classify, Medium)|
            + |Gather(es, classify, Small)| == |es|
  {
    GatherPartition(es, classify);
    assert |multiset(es)| == |es|;
  }

  /** An entry is gathered into `b` exactly when it occurs and classifies as `b`. */
  lemma {:induction false} GatherExactly(es: seq<Entry>, classify: int -> Bucket, b: Bucket, e: Entry)
    ensures e in Gather(es, classify, b) <==> e in es && classify(e.size) == b
  {
    if es != [] {
      var init := es[..|es| - 1];
      GatherExactly(init, classify, b, e);
      assert es == init + [es[|es| - 1]];
    }
  }

  /** Taking a bucket of an ordered sequence keeps it ordered. */
  lemma {:induction false} GatherKeepsOrder(es: seq<Entry>, classify: int -> Bucket, b: Bucket)
    requires NonIncreasing(es, SizeOf)
    ensures NonIncreasing(Gather(es, classify, b), SizeOf)
  {
    if es != [] {
      var init := es[..|es| - 1];
      var last := es[|es| - 1];
      assert NonIncreasing(init, SizeOf) by {
        forall i, j | 0 <= i < j < |init| ensures init[i].size >= init[j].size {
          assert init[i] == es[i] && init[j] == es[j];
        }
      }
      GatherKeepsOrder(init, classify, b);
      var g := Gather(init, classify, b);
      forall e | e in g ensures e.size >= last.size {
        GatherExactly(init, classify, b, e);
        var m :| 0 <= m < |init| && init[m] == e;
        assert es[m] == e;
      }
    }
  }

  /** The summary's `sorted(bucket, key=-size)` does not reorder an ordered bucket. */
  lemma SummaryOrderUnchanged(es: seq<Entry>, classify: int -> Bucket, b: Bucket)
    requires NonIncreasing(es, SizeOf)
    ensures SortDesc(Gather(es, classify, b), SizeOf) == Gather(es, classify, b)
  {
    GatherKeepsOrder(es, classify, b);
    SortDescOfSorted(Gather(es, classify, b), SizeOf);
  }

  // ---------------------------------------------------------------------------
  // format_size
  // ---------------------------------------------------------------------------

  /**
   * What `format_size` shows: "N/A", a value with a unit (rendered with one
   * decimal), or a byte count handed to a humanizing library.
   */
  datatype Shown = NotAvailable | Scaled(value: real, unit: string) | Natural(bytes: nat)

  const Units: seq<string> := ["B", "KB", "MB", "GB", "TB"]

  function Pow1024(u: nat): (p: nat)
    ensures p >= 1
  {
    if u == 0 then 1 else 1024 * Pow1024(u - 1)
  }

  /** The first unit from `u` on whose next power exceeds `n`, or "TB". */
  function UnitFrom(n: nat, u: nat): (r: nat)
    requires u <= 4
    ensures u <= r <= 4
    ensures r < 4 ==> n < Pow1024(r + 1)
    ensures u < r ==> Pow1024(r) <= n
    decreases 4 - u
  {
    if u == 4 || n < Pow1024(u + 1) then u else UnitFrom(n, u + 1)
  }

  /** The unit `format_size` picks: the largest power of 1024 not above `n`, at most TB. */
  function UnitOf(n: nat): (u: nat)
    ensures u <= 4
    ensures u < 4 ==> n < Pow1024(u + 1)
    ensures 0 < u ==> Pow1024(u) <= n
  {
    UnitFrom(n, 0)
  }

  /** `x` divided by 1024, `i` times. */
  function Divided(x: real, i: nat): real {
    if i == 0 then x else Divided(x, i - 1) / 1024.0
  }

  lemma {:induction false} DividedBelow(x: real, c: real, i: nat)
    ensures Divided(x, i) < c <==> x < c * (Pow1024(i) as real)
    decreases i
  {
    if i > 0 {
      DividedBelow(x, 1024.0 * c, i - 1);
      assert (1024.0 * c) * (Pow1024(i - 1) as real) == c * (Pow1024(i) as real);
    }
  }

  /**
   * `format_size` of the reports that print their own units: "N/A" for a
   * negative size; otherwise the size is divided by 1024 until it is below
   * 1024 or the unit list is used up. The value is modelled as an exact
   * real: the first division converts the integer to a float, which rounds
   * sizes above 2^53, and the later divisions by 1024 are exact.
   */
  method FormatSize(sizeBytes: int) returns (r: Shown)
    ensures sizeBytes < 0 ==> r == NotAvailable
    ensures sizeBytes >= 0 ==>
      r == Scaled(Divided(sizeBytes as real, UnitOf(sizeBytes)), Units[UnitOf(sizeBytes)])
  {
    if sizeBytes < 0 {
      return NotAvailable;
    }
    var n: nat := sizeBytes;
    var s: real := n as real;
    var i: nat := 0;
    while i < 4
      invariant i <= 4 && UnitFrom(n, i) == UnitOf(n)
      invariant s == Divided(n as real, i)
    {
      DividedBelow(n as real, 1024.0, i);
      if s < 1024.0 {
        return Scaled(s, Units[i]);
      }
      s := s / 1024.0;
      i := i + 1;
    }
    return Scaled(s, Units[4]);
  }

  /** The humanizing `format_size`: "N/A" for a negative size. */
  function NaturalSize(sizeBytes: int): (r: Shown)
    ensures r == NotAvailable <==> sizeBytes < 0
    ensures r != NotAvailable ==> r == Natural(sizeBytes)
  {
    if sizeBytes < 0 then NotAvailable else Natural(sizeBytes)
  }
}
