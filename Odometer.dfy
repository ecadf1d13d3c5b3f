/**
  The mixed-radix counter ("odometer") at the heart of every enumerator.

  A digit vector `v` holds one alphabet index per position; position `i` has radix `r[i]`
  (the size of the alphabet used there).  The rightmost position varies fastest, so the
  canonical order of the vectors of one length is the order of their `Rank`, the value of
  `v` read as a mixed-radix numeral.
*/
module Odometer {
  import opened Wrappers

  /** Every position has a non-empty alphabet. */
  predicate Radices(r: seq<nat>) {
    forall i :: 0 <= i < |r| ==> r[i] >= 1
  }

  /** `v` is a digit vector for the radices `r`. */
  predicate IsDigits(v: seq<nat>, r: seq<nat>) {
    |v| == |r| && forall i :: 0 <= i < |v| ==> v[i] < r[i]
  }

  /** The number of digit vectors for the radices `r`. */
  function Size(r: seq<nat>): nat {
    if |r| == 0 then 1 else Size(r[..|r| - 1]) * r[|r| - 1]
  }

  /** The value of `v` as a mixed-radix numeral, last digit least significant. */
  function Rank(v: seq<nat>, r: seq<nat>): nat
    requires |v| == |r|
  {
    if |v| == 0 then 0 else Rank(v[..|v| - 1], r[..|r| - 1]) * r[|r| - 1] + v[|v| - 1]
  }

  /** The vector of zeros: every position at its alphabet's first symbol. */
  function Zeros(n: nat): seq<nat> {
    seq(n, i => 0)
  }

  /** The all-maximum vector: every position at its alphabet's last symbol. */
  function Top(r: seq<nat>): seq<nat>
    requires Radices(r)
  {
    seq(|r|, i requires 0 <= i < |r| => r[i] - 1)
  }

  /** The same radix at every one of `n` positions (a single shared alphabet). */
  function Uniform(k: nat, n: nat): seq<nat> {
    seq(n, i => k)
  }

  function Pow(k: nat, n: nat): nat {
    if n == 0 then 1 else Pow(k, n - 1) * k
  }

  /** k^lo + ... + k^hi, zero when the range is empty. */
  function PowerSum(k: nat, lo: nat, hi: nat): nat
    decreases hi - lo + 1
  {
    if lo > hi then 0 else Pow(k, lo) + PowerSum(k, lo + 1, hi)
  }

  /** A single shared alphabet of `k` symbols gives `k^n` vectors of length `n`. */
  lemma {:induction false} SizeUniform(k: nat, n: nat)
    ensures Size(Uniform(k, n)) == Pow(k, n)
    decreases n
  {
    if n > 0 {
      SizeUniform(k, n - 1);
      assert Uniform(k, n)[..n - 1] == Uniform(k, n - 1);
    }
  }

  lemma {:induction false} PowOne(n: nat)
    ensures Pow(1, n) == 1
    decreases n
  {
    if n > 0 {
      PowOne(n - 1);
    }
  }

  /** The sum peeled from the top: k^lo + ... + k^hi = (k^lo + ... + k^(hi-1)) + k^hi. */
  lemma {:induction false} PowerSumLast(k: nat, lo: nat, hi: nat)
    requires lo <= hi && hi >= 1
    ensures PowerSum(k, lo, hi) == PowerSum(k, lo, hi - 1) + Pow(k, hi)
    decreases hi - lo
  {
    if lo < hi {
      PowerSumLast(k, lo + 1, hi);
    }
  }

  // ----- arithmetic helpers -----

  lemma {:induction false} MulLeq(a: nat, b: nat, m: nat)
    requires a <= b
    ensures a * m <= b * m
  {
  }

  lemma {:induction false} MulMono(a: nat, b: nat, m: nat)
    ensures a <= b ==> a * m <= b * m
  {
    if a <= b {
      MulLeq(a, b, m);
    }
  }

  lemma {:induction false} DivMod(n: nat, m: nat, q: nat, d: nat)
    requires d < m && n == q * m + d
    ensures n / m == q && n % m == d
  {
    var q', d' := n / m, n % m;
    assert n == q' * m + d';
    if q' < q {
      MulLeq(q' + 1, q, m);
      assert false;
    } else if q < q' {
      MulLeq(q + 1, q', m);
      assert false;
    }
  }

  lemma {:induction false} DivLess(n: nat, m: nat, s: nat)
    requires n < s * m
    ensures m > 0 && n / m < s
  {
    assert m > 0;
    MulMono(s, n / m, m);
  }

  // ----- rank -----

  lemma {:induction false} RankBound(v: seq<nat>, r: seq<nat>)
    requires IsDigits(v, r)
    ensures Rank(v, r) < Size(r)
    decreases |v|
  {
    if |v| > 0 {
      var n := |v|;
      RankBound(v[..n - 1], r[..n - 1]);
      MulLeq(Rank(v[..n - 1], r[..n - 1]) + 1, Size(r[..n - 1]), r[n - 1]);
    }
  }

  /** The digit vector whose rank is `n`: the inverse of `Rank`. */
  function Unrank(n: nat, r: seq<nat>): (v: seq<nat>)
    requires n < Size(r)
    ensures IsDigits(v, r) && Rank(v, r) == n
    decreases |r|
  {
    if |r| == 0 then []
    else
      var m := r[|r| - 1];
      DivLess(n, m, Size(r[..|r| - 1]));
      var p := Unrank(n / m, r[..|r| - 1]);
      var v := p + [n % m];
      assert v[..|v| - 1] == p;
      v
  }

  lemma {:induction false} UnrankRank(v: seq<nat>, r: seq<nat>)
    requires IsDigits(v, r)
    ensures Rank(v, r) < Size(r) && Unrank(Rank(v, r), r) == v
    decreases |v|
  {
    RankBound(v, r);
    if |v| > 0 {
      var n := |v|;
      var p := Rank(v[..n - 1], r[..n - 1]);
      DivMod(Rank(v, r), r[n - 1], p, v[n - 1]);
      UnrankRank(v[..n - 1], r[..n - 1]);
      assert v == v[..n - 1] + [v[n - 1]];
    }
  }

  /** Distinct vectors have distinct ranks. */
  lemma {:induction false} RankInjective(v: seq<nat>, w: seq<nat>, r: seq<nat>)
    requires IsDigits(v, r) && IsDigits(w, r) && Rank(v, r) == Rank(w, r)
    ensures v == w
  {
    UnrankRank(v, r);
    UnrankRank(w, r);
  }

  lemma {:induction false} RankZeros(r: seq<nat>)
    requires Radices(r)
    ensures IsDigits(Zeros(|r|), r) && Rank(Zeros(|r|), r) == 0
    decreases |r|
  {
    if |r| > 0 {
      var n := |r|;
      assert Zeros(n)[..n - 1] == Zeros(n - 1);
      RankZeros(r[..n - 1]);
    }
  }

  lemma {:induction false} RankTop(r: seq<nat>)
    requires Radices(r)
    ensures IsDigits(Top(r), r) && Rank(Top(r), r) == Size(r) - 1
    decreases |r|
  {
    if |r| > 0 {
      var n := |r|;
      assert Top(r)[..n - 1] == Top(r[..n - 1]);
      RankTop(r[..n - 1]);
      assert Rank(Top(r), r) == (Size(r[..n - 1]) - 1) * r[n - 1] + r[n - 1] - 1;
    }
  }

  /** Only the all-maximum vector has the largest rank. */
  lemma {:induction false} RankTopOnly(v: seq<nat>, r: seq<nat>)
    requires Radices(r) && IsDigits(v, r) && Rank(v, r) == Size(r) - 1
    ensures v == Top(r)
  {
    RankTop(r);
    RankInjective(v, Top(r), r);
  }

  /** Replacing the last digit moves the rank by the difference of the digits. */
  lemma {:induction false} RankSetLast(v: seq<nat>, r: seq<nat>, d: nat)
    requires IsDigits(v, r) && |v| > 0 && d < r[|r| - 1]
    ensures IsDigits(v[|v| - 1 := d], r)
    ensures Rank(v[|v| - 1 := d], r) == Block(v, r) + d
  {
    var n := |v|;
    assert v[n - 1 := d][..n - 1] == v[..n - 1];
  }

  // ----- the successor -----

  /** A carry into a digit of weight `m`: one more unit of weight `m` is the maximal digit plus one. */
  lemma {:induction false} CarryRank(p: nat, x: nat, m: nat)
    requires m >= 1 && x == p + 1
    ensures x * m == p * m + (m - 1) + 1
  {
  }

  /** `v` with its last `j` digits reset to 0 and the digit before them incremented. */
  function Carried(v: seq<nat>, j: nat): (c: seq<nat>)
    requires j < |v|
    ensures |c| == |v|
    decreases j
  {
    if j == 0 then v[..|v| - 1] + [v[|v| - 1] + 1] else Carried(v[..|v| - 1], j - 1) + [0]
  }

  /** Position by position: the digits before the carry are kept, then one is incremented, then zeros. */
  lemma {:induction false} CarriedAt(v: seq<nat>, j: nat)
    requires j < |v|
    ensures forall i :: 0 <= i < |v| ==>
      Carried(v, j)[i] == if i < |v| - 1 - j then v[i] else if i == |v| - 1 - j then v[i] + 1 else 0
    decreases j
  {
    if j > 0 {
      CarriedAt(v[..|v| - 1], j - 1);
    }
  }

  /** Incrementing a last digit that is not maximal gives the next rank. */
  lemma {:induction false} CarryNone(v: seq<nat>, r: seq<nat>)
    requires IsDigits(v, r) && |v| > 0 && v[|v| - 1] + 1 < r[|r| - 1]
    ensures Rank(Carried(v, 0), r) == Rank(v, r) + 1
  {
    var n := |v|;
    var w := Carried(v, 0);
    assert |w| == n && w[..n - 1] == v[..n - 1] && w[n - 1] == v[n - 1] + 1;
  }

  /** A maximal last digit: the carry of `v` is the carry of its prefix followed by a 0. */
  lemma {:induction false} CarryOne(v: seq<nat>, r: seq<nat>, j: nat)
    requires IsDigits(v, r) && 0 < j < |v| && v[|v| - 1] + 1 == r[|r| - 1]
    requires Rank(Carried(v[..|v| - 1], j - 1), r[..|r| - 1]) == Rank(v[..|v| - 1], r[..|r| - 1]) + 1
    ensures Rank(Carried(v, j), r) == Rank(v, r) + 1
  {
    var n := |v|;
    var p, q, m := v[..n - 1], r[..n - 1], r[n - 1];
    var w, w' := Carried(v, j), Carried(p, j - 1);
    assert |w| == n && w[..n - 1] == w' && w[n - 1] == 0;
    CarryRank(Rank(p, q), Rank(w', q), m);
  }

  /**
    The carry step as the loop of the source performs it: when the last `j` digits are
    maximal and the digit before them is not, resetting those `j` digits to 0 and
    incrementing that digit gives the vector of the next rank.
  */
  lemma {:induction false} CarryTrailing(v: seq<nat>, r: seq<nat>, j: nat)
    requires Radices(r) && IsDigits(v, r) && j < |v|
    requires forall i :: |v| - j <= i < |v| ==> v[i] == r[i] - 1
    requires v[|v| - 1 - j] + 1 < r[|v| - 1 - j]
    ensures Rank(Carried(v, j), r) == Rank(v, r) + 1
    decreases j
  {
    var n := |v|;
    if j == 0 {
      CarryNone(v, r);
    } else {
      CarryTrailing(v[..n - 1], r[..n - 1], j - 1);
      CarryOne(v, r, j);
    }
  }

  // ----- lexicographic order -----

  /** `a` comes before `b` in dictionary order: equal up to `i`, smaller at `i`. */
  predicate LexLess(a: seq<nat>, b: seq<nat>) {
    exists i :: 0 <= i < |a| && i < |b| && a[..i] == b[..i] && a[i] < b[i]
  }

  lemma {:induction false} LexAt(a: seq<nat>, b: seq<nat>, r: seq<nat>, i: nat)
    requires IsDigits(a, r) && IsDigits(b, r) && i < |a| && a[..i] == b[..i] && a[i] < b[i]
    ensures Rank(a, r) < Rank(b, r)
    decreases |a|
  {
    var n := |a|;
    var pa, pb, q := a[..n - 1], b[..n - 1], r[..n - 1];
    if i < n - 1 {
      assert pa[..i] == a[..i] && pb[..i] == b[..i];
      LexAt(pa, pb, q, i);
      var ra, rb, m := Rank(pa, q), Rank(pb, q), r[n - 1];
      MulLeq(ra + 1, rb, m);
      CarryRank(ra, ra + 1, m);
      assert Rank(a, r) == ra * m + a[n - 1];
      assert Rank(b, r) == rb * m + b[n - 1];
    } else {
      assert pa == pb;
    }
  }

  lemma {:induction false} FirstDifference(a: seq<nat>, b: seq<nat>) returns (i: nat)
    requires |a| == |b| && a != b
    ensures i < |a| && a[..i] == b[..i] && a[i] != b[i]
    decreases |a|
  {
    if a[0] != b[0] {
      i := 0;
    } else {
      assert a == [a[0]] + a[1..];
      assert b == [b[0]] + b[1..];
      var k := FirstDifference(a[1..], b[1..]);
      i := k + 1;
      assert a[..i] == [a[0]] + a[1..][..k];
      assert b[..i] == [b[0]] + b[1..][..k];
    }
  }

  /** Rank order is dictionary order. */
  lemma {:induction false} LexIffRank(a: seq<nat>, b: seq<nat>, r: seq<nat>)
    requires IsDigits(a, r) && IsDigits(b, r)
    ensures LexLess(a, b) <==> Rank(a, r) < Rank(b, r)
  {
    if LexLess(a, b) {
      var i :| 0 <= i < |a| && i < |b| && a[..i] == b[..i] && a[i] < b[i];
      LexAt(a, b, r, i);
    }
    if Rank(a, r) < Rank(b, r) {
      var i := FirstDifference(a, b);
      if b[i] < a[i] {
        LexAt(b, a, r, i);
      }
    }
  }

  // ----- runs of consecutive vectors -----

  /** The vectors of ranks lo, lo+1, ..., hi-1, in that order. */
  function Span(r: seq<nat>, lo: nat, hi: nat): (s: seq<seq<nat>>)
    requires lo <= hi <= Size(r)
    ensures |s| == hi - lo
    ensures forall i :: 0 <= i < |s| ==> IsDigits(s[i], r) && Rank(s[i], r) == lo + i
  {
    var s := seq(hi - lo, i requires 0 <= i < hi - lo => Unrank(lo + i, r));
    assert forall i :: 0 <= i < |s| ==> s[i] == Unrank(lo + i, r);
    s
  }

  lemma {:induction false} SpanSnoc(r: seq<nat>, lo: nat, v: seq<nat>)
    requires IsDigits(v, r) && lo <= Rank(v, r)
    ensures Rank(v, r) < Size(r)
    ensures Span(r, lo, Rank(v, r)) + [v] == Span(r, lo, Rank(v, r) + 1)
  {
    UnrankRank(v, r);
  }

  /** A run is a slice of the full enumeration of its length. */
  lemma {:induction false} SpanSlice(r: seq<nat>, lo: nat, hi: nat)
    requires lo <= hi <= Size(r)
    ensures Span(r, lo, hi) == Span(r, 0, Size(r))[lo..hi]
  {
  }

  lemma {:induction false} SpanAppend(r: seq<nat>, lo: nat, mid: nat, hi: nat)
    requires lo <= mid <= hi <= Size(r)
    ensures Span(r, lo, mid) + Span(r, mid, hi) == Span(r, lo, hi)
  {
  }

  /** Within a run the vectors are in strictly increasing dictionary order. */
  lemma {:induction false} SpanOrdered(r: seq<nat>, lo: nat, hi: nat, i: nat, j: nat)
    requires lo <= hi <= Size(r) && i < j < hi - lo
    ensures LexLess(Span(r, lo, hi)[i], Span(r, lo, hi)[j])
  {
    var s := Span(r, lo, hi);
    LexIffRank(s[i], s[j], r);
  }

  // ----- the imperative odometer -----

  /**
    The number of vectors one sweep of a length emits.  The outer loop tests for the
    all-maximum vector right after the carry, so when the last position has a single
    symbol that vector is reached by a carry and never emitted.
  */
  function SweepCount(r: seq<nat>): nat
    requires |r| > 0 && Radices(r)
  {
    RankBound(Zeros(|r|), r);
    RankZeros(r);
    Size(r) - (if r[|r| - 1] == 1 then 1 else 0)
  }

  lemma {:induction false} CarriedDigits(v: seq<nat>, r: seq<nat>, j: nat)
    requires IsDigits(v, r) && j < |v| && v[|v| - 1 - j] + 1 < r[|v| - 1 - j]
    ensures IsDigits(Carried(v, j), r)
  {
    CarriedAt(v, j);
  }

  /** The reset half of the carry loop: trailing maximal digits become 0. */
  method ResetTrailing(a: array<nat>, r: seq<nat>) returns (j: nat, found: bool)
    requires a.Length == |r| > 0 && Radices(r)
    modifies a
    ensures j <= a.Length && (found <==> j < a.Length)
    ensures forall i :: 0 <= i < a.Length - j ==> a[i] == old(a[i])
    ensures forall i :: a.Length - j <= i < a.Length ==> a[i] == 0 && old(a[i]) == r[i] - 1
    ensures found ==> a[a.Length - 1 - j] != r[a.Length - 1 - j] - 1
  {
    var n := a.Length;
    j := 0;
    while true
      invariant 0 <= j <= n
      invariant forall i :: 0 <= i < n - j ==> a[i] == old(a[i])
      invariant forall i :: n - j <= i < n ==> a[i] == 0 && old(a[i]) == r[i] - 1
      decreases n - j
    {
      if n - 1 - j < 0 {
        found := false;
        return;
      }
      if a[n - 1 - j] != r[n - 1 - j] - 1 {
        found := true;
        return;
      }
      a[n - 1 - j] := 0;
      j := j + 1;
    }
  }

  /**
    The carry loop: trailing maximal digits are reset to 0 and the next digit is incremented.
    On the all-maximum vector the loop runs past the first position, which in the source
    indexes position -1; `inRange` is then false.
  */
  method Carry(a: array<nat>, r: seq<nat>) returns (inRange: bool)
    requires a.Length == |r| > 0 && Radices(r) && IsDigits(a[..], r)
    modifies a
    ensures inRange <==> old(a[..]) != Top(r)
    ensures inRange ==> IsDigits(a[..], r) && Rank(a[..], r) == Rank(old(a[..]), r) + 1
    ensures inRange && old(a[a.Length - 1]) == r[|r| - 1] - 1 ==> a[a.Length - 1] == 0
  {
    ghost var v := a[..];
    var n := a.Length;
    var j, found := ResetTrailing(a, r);
    if !found {
      assert v == Top(r);
      inRange := false;
      return;
    }
    var k := n - 1 - j;
    assert v[k] != Top(r)[k];
    CarryTrailing(v, r, j);
    CarriedDigits(v, r, j);
    a[k] := a[k] + 1;
    assert a[..] == Carried(v, j) by { CarriedAt(v, j); }
    inRange := true;
  }

  /** The vectors `v` with its last digit set to lo, lo+1, ..., hi-1, in that order. */
  function LastRun(v: seq<nat>, lo: nat, hi: nat): (s: seq<seq<nat>>)
    requires |v| > 0 && lo <= hi
    ensures |s| == hi - lo
    ensures forall i :: 0 <= i < |s| ==> s[i] == v[|v| - 1 := lo + i]
  {
    seq(hi - lo, i requires 0 <= i < hi - lo => v[|v| - 1 := lo + i])
  }

  /** The rank of `v` with its last digit set to 0. */
  function Block(v: seq<nat>, r: seq<nat>): nat
    requires |v| == |r| > 0
  {
    Rank(v[..|v| - 1], r[..|r| - 1]) * r[|r| - 1]
  }

  lemma {:induction false} LastRunSnoc(v: seq<nat>, lo: nat, hi: nat)
    requires |v| > 0 && lo <= hi
    ensures LastRun(v, lo, hi) + [v[|v| - 1 := hi]] == LastRun(v, lo, hi + 1)
  {
    assert LastRun(v, lo, hi + 1)[hi - lo] == v[|v| - 1 := hi];
  }

  /** A block holds one vector for each symbol of the last position. */
  lemma {:induction false} BlockBound(v: seq<nat>, r: seq<nat>)
    requires IsDigits(v, r) && |v| > 0
    ensures Rank(v, r) == Block(v, r) + v[|v| - 1] && Block(v, r) + r[|r| - 1] <= Size(r)
  {
    var n := |v|;
    RankSetLast(v, r, r[n - 1] - 1);
    RankBound(v[n - 1 := r[n - 1] - 1], r);
  }

  /** Running the last digit of `v` through part of its alphabet is a run of consecutive ranks. */
  lemma {:induction false} LastRunSpan(v: seq<nat>, r: seq<nat>, lo: nat, hi: nat)
    requires IsDigits(v, r) && |v| > 0 && lo <= hi <= r[|r| - 1]
    ensures Rank(v, r) == Block(v, r) + v[|v| - 1] && Block(v, r) + r[|r| - 1] <= Size(r)
    ensures LastRun(v, lo, hi) == Span(r, Block(v, r) + lo, Block(v, r) + hi)
  {
    BlockBound(v, r);
    var base := Block(v, r);
    var s, t := LastRun(v, lo, hi), Span(r, base + lo, base + hi);
    forall i | 0 <= i < hi - lo
      ensures s[i] == t[i]
    {
      RankSetLast(v, r, lo + i);
      RankDistinct(s[i], t[i], r);
    }
    assert |s| == |t|;
  }

  /** A digit vector whose rank lies in a run occurs in it. */
  lemma {:induction false} SpanMember(r: seq<nat>, lo: nat, hi: nat, e: seq<nat>)
    requires lo <= hi <= Size(r) && IsDigits(e, r)
    ensures lo <= Rank(e, r) < hi ==> e in Span(r, lo, hi)
  {
    if lo <= Rank(e, r) < hi {
      UnrankRank(e, r);
      assert Span(r, lo, hi)[Rank(e, r) - lo] == e;
    }
  }

  /** Runs with equal bounds are equal (a congruence step the solver misses in larger contexts). */
  lemma {:induction false} SpanEq(r: seq<nat>, lo: nat, hi: nat, lo': nat, hi': nat)
    requires lo <= hi <= Size(r) && lo == lo' && hi == hi'
    ensures Span(r, lo, hi) == Span(r, lo', hi')
  {
  }

  /** What a sweep of the last position of `v` up to `d` emits, and where it leaves the vector. */
  lemma {:induction false} LastRunEnd(v: seq<nat>, r: seq<nat>, d: nat, w: seq<nat>, e: seq<nat>)
    requires IsDigits(v, r) && IsDigits(e, r) && |v| > 0 && v[|v| - 1] <= d < r[|r| - 1]
    requires w == v[|v| - 1 := d]
    ensures IsDigits(w, r) && Rank(v, r) <= Rank(w, r) < Size(r)
    ensures LastRun(v, v[|v| - 1], d + 1) == Span(r, Rank(v, r), Rank(w, r) + 1)
    ensures Rank(v, r) <= Rank(e, r) && e !in LastRun(v, v[|v| - 1], d + 1) ==> Rank(w, r) < Rank(e, r)
  {
    var b, lo := Block(v, r), v[|v| - 1];
    BlockBound(v, r);
    RankSetLast(v, r, d);
    assert Rank(v, r) == b + lo && Rank(w, r) == b + d;
    LastRunSpan(v, r, lo, d + 1);
    SpanEq(r, b + lo, b + d + 1, Rank(v, r), Rank(w, r) + 1);
    SpanMember(r, b + lo, b + d + 1, e);
  }

  /**
    The inner loop of the unbounded enumerator: the last position, at 0 on entry, runs
    through its whole alphabet and every vector is emitted.
  */
  method SweepFull(a: array<nat>, r: seq<nat>) returns (emitted: seq<seq<nat>>)
    requires a.Length == |r| > 0 && Radices(r) && IsDigits(a[..], r) && a[a.Length - 1] == 0
    modifies a
    ensures IsDigits(a[..], r) && a[a.Length - 1] == r[|r| - 1] - 1
    ensures Rank(a[..], r) == Rank(old(a[..]), r) + r[|r| - 1] - 1 < Size(r)
    ensures emitted == Span(r, Rank(old(a[..]), r), Rank(a[..], r) + 1)
  {
    ghost var v := a[..];
    var last := a.Length - 1;
    var max: nat := r[last] - 1;
    ghost var d: nat := 0;
    emitted := [];
    var k: nat := 0;
    while k <= max
      invariant k <= r[last] && d == if k == 0 then 0 else k - 1
      invariant a[..] == v[last := d]
      invariant emitted == LastRun(v, 0, k)
    {
      a[last] := k;
      d := k;
      assert a[..] == v[last := k];
      LastRunSnoc(v, 0, k);
      emitted := emitted + [a[..]];
      k := k + 1;
    }
    LastRunSpan(v, r, 0, r[last]);
    RankSetLast(v, r, max);
  }

  /**
    One pass of the outer loop of the unbounded enumerator: a full sweep of the last
    position, then, unless the all-maximum vector was reached (`atTop`), a carry.
  */
  method SweepBlock(a: array<nat>, r: seq<nat>) returns (emitted: seq<seq<nat>>, atTop: bool)
    requires a.Length == |r| > 0 && Radices(r) && IsDigits(a[..], r) && a[a.Length - 1] == 0
    requires a[..] != Top(r) && Rank(a[..], r) < Size(r)
    modifies a
    ensures atTop ==> r[|r| - 1] != 1 && emitted == Span(r, Rank(old(a[..]), r), Size(r))
    ensures !atTop ==> IsDigits(a[..], r) && a[a.Length - 1] == 0
    ensures !atTop ==> Rank(old(a[..]), r) < Rank(a[..], r) < Size(r)
    ensures !atTop ==> emitted == Span(r, Rank(old(a[..]), r), Rank(a[..], r))
  {
    ghost var head := a[..];
    emitted := SweepFull(a, r);
    ghost var swept := a[..];
    if a[..] == Top(r) {
      atTop := true;
      RankDistinct(head, swept, r);
      RankTop(r);
      return;
    }
    atTop := false;
    var inRange := Carry(a, r);
    RankBound(a[..], r);
  }

  /**
    One length of the unbounded enumerator: starting from the vector of zeros, the last
    position sweeps its whole alphabet, then a carry moves to the next block, until the
    all-maximum vector has been seen.
  */
  method SweepLength(r: seq<nat>) returns (out: seq<seq<nat>>)
    requires |r| > 0 && Radices(r)
    ensures out == Span(r, 0, SweepCount(r))
  {
    var n := |r|;
    var top := Top(r);
    var a := new nat[n](i => 0);
    out := [];
    assert IsDigits(a[..], r) && Rank(a[..], r) == 0 < Size(r) by {
      assert a[..] == Zeros(n);
      RankZeros(r);
      RankBound(a[..], r);
    }
    assert out == Span(r, 0, 0);
    while a[..] != top
      invariant IsDigits(a[..], r) && a[n - 1] == 0
      invariant Rank(a[..], r) < Size(r)
      invariant out == Span(r, 0, Rank(a[..], r))
      decreases Size(r) - Rank(a[..], r)
    {
      ghost var head := a[..];
      var emitted, atTop := SweepBlock(a, r);
      if atTop {
        SpanAppend(r, 0, Rank(head, r), Size(r));
        out := out + emitted;
        return;
      }
      SpanAppend(r, 0, Rank(head, r), Rank(a[..], r));
      out := out + emitted;
    }
    RankTop(r);
  }

  /**
    What one length of the range enumerator yields for the start vector `s` and the end
    vector `e`: nothing when they are equal, the inclusive run from `s` to `e` when `s`
    comes first, and the out-of-range fault of the carry loop when `s` comes after `e`
    (the sweep then reaches the all-maximum vector without meeting `e`).
  */
  function RangeSpan(r: seq<nat>, s: seq<nat>, e: seq<nat>): Result<seq<seq<nat>>, bool>
    requires IsDigits(s, r) && IsDigits(e, r)
  {
    RankBound(e, r);
    if s == e then Success([])
    else if Rank(s, r) < Rank(e, r) then Success(Span(r, Rank(s, r), Rank(e, r) + 1))
    else Failure(false)
  }

  /** Distinct digit vectors have distinct ranks. */
  lemma {:induction false} RankDistinct(v: seq<nat>, w: seq<nat>, r: seq<nat>)
    requires IsDigits(v, r) && IsDigits(w, r)
    ensures v != w ==> Rank(v, r) != Rank(w, r)
  {
    UnrankRank(v, r);
    UnrankRank(w, r);
  }

  /**
    The inner loop of the range enumerator: the last position runs from its current value
    up to its maximum, every vector is emitted, and the loop stops as soon as `e` has been
    emitted (`hit`).
  */
  method SweepLast(a: array<nat>, r: seq<nat>, e: seq<nat>) returns (emitted: seq<seq<nat>>, hit: bool)
    requires a.Length == |r| > 0 && Radices(r) && IsDigits(a[..], r) && IsDigits(e, r)
    modifies a
    ensures IsDigits(a[..], r) && Rank(old(a[..]), r) <= Rank(a[..], r) < Size(r)
    ensures hit <==> a[..] == e
    ensures Rank(old(a[..]), r) <= Rank(e, r) ==> Rank(a[..], r) <= Rank(e, r)
    ensures emitted == Span(r, Rank(old(a[..]), r), Rank(a[..], r) + 1)
  {
    ghost var v := a[..];
    var last := a.Length - 1;
    var lo: nat := a[last];
    var max: nat := r[last] - 1;
    ghost var d: nat := lo;
    assert lo < r[last] && v[last := lo] == v;
    emitted := [];
    hit := false;
    var k: nat := lo;
    while k <= max
      invariant lo <= k <= r[last] && (k == lo || k == d + 1)
      invariant a[..] == v[last := d]
      invariant emitted == LastRun(v, lo, k) && e !in emitted
    {
      a[last] := k;
      d := k;
      assert a[..] == v[last := k];
      LastRunSnoc(v, lo, k);
      emitted := emitted + [a[..]];
      if a[0] == e[0] && a[..] == e {
        hit := true;
        break;
      }
      k := k + 1;
    }
    assert emitted == LastRun(v, lo, d + 1) && emitted[d - lo] == a[..];
    LastRunEnd(v, r, d, a[..], e);
  }

  /** A sweep that ends on the all-maximum vector without meeting `e` means `e` lies before the start. */
  lemma {:induction false} CarryFault(r: seq<nat>, lower: nat, swept: seq<nat>, e: seq<nat>)
    requires Radices(r) && IsDigits(e, r) && swept == Top(r) && swept != e && lower != Rank(e, r)
    requires |swept| == |r| && (lower < Rank(e, r) ==> Rank(swept, r) <= Rank(e, r))
    ensures Rank(e, r) < lower
  {
    RankTop(r);
    RankDistinct(Top(r), e, r);
    RankBound(e, r);
  }

  /** After a sweep that did not meet `e`, the carried vector extends the run by one. */
  lemma {:induction false} CarryStep(r: seq<nat>, lower: nat, swept: seq<nat>, next: seq<nat>, e: seq<nat>)
    requires IsDigits(swept, r) && IsDigits(next, r) && IsDigits(e, r) && swept != e
    requires Rank(next, r) == Rank(swept, r) + 1
    requires lower <= Rank(swept, r) && (lower < Rank(e, r) ==> Rank(swept, r) <= Rank(e, r))
    ensures lower < Rank(next, r) < Size(r)
    ensures lower < Rank(e, r) ==> Rank(next, r) <= Rank(e, r)
    ensures Span(r, lower, Rank(swept, r) + 1) + [next] == Span(r, lower, Rank(next, r) + 1)
  {
    RankDistinct(swept, e, r);
    RankBound(next, r);
    SpanSnoc(r, lower, next);
  }

  /** A pass that carried past the sweep ends one further on, and emits the carried vector only when it is `e`. */
  lemma {:induction false} BlockStep(r: seq<nat>, lower: nat, head: seq<nat>, swept: seq<nat>, next: seq<nat>, e: seq<nat>,
      emitted: seq<seq<nat>>, met: bool)
    requires IsDigits(head, r) && IsDigits(swept, r) && IsDigits(next, r) && IsDigits(e, r) && swept != e
    requires Rank(head, r) <= Rank(swept, r) < Size(r) && Rank(next, r) == Rank(swept, r) + 1
    requires lower <= Rank(head, r) && (lower < Rank(e, r) ==> Rank(swept, r) <= Rank(e, r))
    requires emitted == Span(r, Rank(head, r), Rank(swept, r) + 1) && met == (next == e)
    ensures Rank(head, r) < Rank(next, r) < Size(r)
    ensures lower < Rank(e, r) ==> Rank(next, r) <= Rank(e, r)
    ensures (if met then emitted + [next] else emitted) == Span(r, Rank(head, r), Rank(next, r) + if met then 1 else 0)
  {
    CarryStep(r, Rank(head, r), swept, next, e);
    CarryStep(r, lower, swept, next, e);
  }

  /**
    One pass of the outer loop of the range enumerator: a sweep of the last position, then,
    unless `e` was met, a carry, after which `e` is emitted if the carry lands on it.
    `inRange` is false when the carry runs off the front.
  */
  method RangeBlock(a: array<nat>, r: seq<nat>, e: seq<nat>, ghost lower: nat)
      returns (emitted: seq<seq<nat>>, met: bool, inRange: bool)
    requires a.Length == |r| > 0 && Radices(r) && IsDigits(a[..], r) && IsDigits(e, r) && a[..] != e
    requires lower <= Rank(a[..], r) && lower != Rank(e, r)
    requires lower < Rank(e, r) ==> Rank(a[..], r) <= Rank(e, r)
    modifies a
    ensures !inRange ==> Rank(e, r) < lower
    ensures inRange ==> IsDigits(a[..], r) && Rank(old(a[..]), r) < Rank(a[..], r) < Size(r)
    ensures inRange ==> (lower < Rank(e, r) ==> Rank(a[..], r) <= Rank(e, r))
    ensures inRange ==> (met <==> a[..] == e)
    ensures inRange ==> emitted == Span(r, Rank(old(a[..]), r), Rank(a[..], r) + if met then 1 else 0)
  {
    ghost var head := a[..];
    var hit;
    emitted, hit := SweepLast(a, r, e);
    ghost var swept := a[..];
    if a[0] == e[0] && a[..] == e {
      met, inRange := true, true;
      assert Rank(head, r) < Rank(swept, r) by {
        RankDistinct(head, swept, r);
      }
      return;
    }
    inRange := Carry(a, r);
    if !inRange {
      CarryFault(r, lower, swept, e);
      met := false;
      return;
    }
    ghost var next := a[..];
    met := a[0] == e[0] && a[..] == e;
    BlockStep(r, lower, head, swept, next, e, emitted, met);
    if met {
      emitted := emitted + [a[..]];
    }
  }

  /**
    One length of the range enumerator: passes of the outer loop from `s` until `e` has been
    emitted, or the fault of the carry.
  */
  method SweepRange(r: seq<nat>, s: seq<nat>, e: seq<nat>) returns (res: Result<seq<seq<nat>>, bool>)
    requires |r| > 0 && Radices(r) && IsDigits(s, r) && IsDigits(e, r)
    ensures res == RangeSpan(r, s, e)
  {
    var n := |r|;
    var a := new nat[n](i requires 0 <= i < n => s[i]);
    assert a[..] == s;
    ghost var lower := Rank(s, r);
    ghost var upper := Rank(e, r);
    RankBound(s, r);
    RankDistinct(s, e, r);
    var out := [];
    ghost var done := lower;
    assert out == Span(r, lower, done);
    while a[..] != e
      invariant IsDigits(a[..], r)
      invariant lower <= Rank(a[..], r) < Size(r)
      invariant lower < upper ==> Rank(a[..], r) <= upper
      invariant s == e ==> a[..] == e
      invariant done == if a[..] == e && lower < Rank(a[..], r) then Rank(a[..], r) + 1 else Rank(a[..], r)
      invariant lower <= done <= Size(r) && out == Span(r, lower, done)
      decreases Size(r) - Rank(a[..], r)
    {
      ghost var head := a[..];
      var emitted, met, inRange := RangeBlock(a, r, e, lower);
      if !inRange {
        res := Failure(false);
        return;
      }
      ghost var next := a[..];
      ghost var stop := Rank(next, r) + if met then 1 else 0;
      assert out + emitted == Span(r, lower, stop) by {
        SpanAppend(r, lower, Rank(head, r), stop);
      }
      out := out + emitted;
      done := stop;
    }
    res := Success(out);
  }
}
