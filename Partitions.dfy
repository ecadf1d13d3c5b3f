/**
  How the partitioners split the words of one alphabet into consecutive ranges: the boundary
  words, what each range between two boundaries yields, and what the ranges yield together.
*/
module Partitions {
  import opened Wrappers
  import opened Odometer
  import opened Alphabet
  import opened Enumeration
  import opened Canonical

  /** Symbols in strictly ascending code order: a sorted alphabet without duplicates. */
  predicate Ascending(a: seq<char>) {
    forall i, j :: 0 <= i < j < |a| ==> a[i] < a[j]
  }

  lemma {:induction false} AscendingUnique(a: seq<char>)
    requires Ascending(a)
    ensures Unique(a)
  {
  }

  // ----- boundary indices -----

  lemma {:induction false} DivMono(x: nat, y: nat, m: nat)
    requires x <= y && m >= 1
    ensures x / m <= y / m
  {
    if y / m < x / m {
      MulLeq(y / m + 1, x / m, m);
      assert false;
    }
  }

  lemma {:induction false} DivShift(n: nat, m: nat)
    requires m >= 1
    ensures (n + m) / m == n / m + 1
  {
    DivMod(n + m, m, n / m + 1, n % m);
  }

  /**
    The alphabet index of boundary `i` of `parts` ranges over `len` symbols: the first symbol,
    then `i * len / parts` rounded down for the inner boundaries, then the last symbol.  It is
    always a valid index.
  */
  function BoundAt(len: nat, parts: nat, i: nat): (x: nat)
    requires len >= 1 && 2 <= parts && i <= parts
    ensures x < len
  {
    if i == 0 then 0
    else if i == parts then len - 1
    else
      MulLeq(i + 1, parts, len);
      DivLess(i * len, parts, len);
      i * len / parts
  }

  /** The boundary indices never decrease. */
  lemma {:induction false} BoundAtMono(len: nat, parts: nat, i: nat, j: nat)
    requires len >= 1 && 2 <= parts && i <= j <= parts
    ensures BoundAt(len, parts, i) <= BoundAt(len, parts, j)
  {
    if 0 < i && j < parts {
      MulLeq(i, j, len);
      DivMono(i * len, j * len, parts);
    }
  }

  /**
    With at least as many symbols as ranges, the boundary indices strictly increase, except the
    last two when there are exactly as many ranges as symbols.
  */
  lemma {:induction false} BoundAtStrict(len: nat, parts: nat, i: nat)
    requires 2 <= parts <= len && i < parts && (parts < len || i + 1 < parts)
    ensures BoundAt(len, parts, i) < BoundAt(len, parts, i + 1)
  {
    if i == 0 {
      DivMono(parts, len, parts);
    } else if i + 1 == parts {
      assert i * len == parts * len - len;
      assert (len - 1) * parts == parts * len - parts;
      DivLess(i * len, parts, len - 1);
    } else {
      assert (i + 1) * len == i * len + len;
      DivShift(i * len, parts);
      DivMono(i * len + parts, (i + 1) * len, parts);
    }
  }

  // ----- boundary words -----

  /**
    Boundary `i`: the lower bound of range `i` and the upper bound of range `i - 1`.  The
    first boundary repeats the first symbol `minLength` times, every other one repeats the
    symbol at its boundary index `maxLength` times.
  */
  function Boundary(a: seq<char>, minLength: nat, maxLength: nat, parts: nat, i: nat): (b: Word)
    requires |a| >= 1 && 2 <= parts && i <= parts
    ensures Over(a, b)
  {
    Repeat(a[BoundAt(|a|, parts, i)], if i == 0 then minLength else maxLength)
  }

  /** What range `i` yields: the range enumerator between boundaries `i` and `i + 1`. */
  function Piece(a: seq<char>, minLength: nat, maxLength: nat, parts: nat, i: nat): Result<seq<Word>, Error>
    requires |a| >= 1 && 2 <= parts && i < parts
  {
    var lo := Boundary(a, minLength, maxLength, parts, i);
    RangeFrom(a, lo, Boundary(a, minLength, maxLength, parts, i + 1), |lo|)
  }

  /** The ranges between consecutive boundaries, each as the given range enumerator makes it. */
  function Split(a: seq<char>, minLength: nat, maxLength: nat, parts: nat, range: (Word, Word) --> Result<seq<Word>, Error>)
    : (ds: seq<Result<seq<Word>, Error>>)
    requires |a| >= 1 && 2 <= parts
    requires forall i :: 0 <= i < parts ==>
      range.requires(Boundary(a, minLength, maxLength, parts, i), Boundary(a, minLength, maxLength, parts, i + 1))
  {
    seq(parts, i requires 0 <= i < parts =>
      range(Boundary(a, minLength, maxLength, parts, i), Boundary(a, minLength, maxLength, parts, i + 1)))
  }

  /** Entry `i` of a split is the range between boundaries `i` and `i + 1`, whatever the range enumerator. */
  lemma {:induction false} SplitEntry(a: seq<char>, minLength: nat, maxLength: nat, parts: nat,
                                      range: (Word, Word) --> Result<seq<Word>, Error>, i: nat)
    requires |a| >= 1 && 2 <= parts && i < parts
    requires forall j :: 0 <= j < parts ==>
      range.requires(Boundary(a, minLength, maxLength, parts, j), Boundary(a, minLength, maxLength, parts, j + 1))
    ensures |Split(a, minLength, maxLength, parts, range)| == parts
    ensures Split(a, minLength, maxLength, parts, range)[i] ==
      range(Boundary(a, minLength, maxLength, parts, i), Boundary(a, minLength, maxLength, parts, i + 1))
  {
  }

  /**
    The loop of the partitioners: `minVal` starts at the first boundary and `maxVal` at the
    second; each pass adds the range between them, moves `minVal` up to `maxVal` and computes
    the next boundary, the last one from the last symbol.  The result holds `parts` ranges,
    range `i` running from boundary `i` to boundary `i + 1`.
  */
  method SplitRanges(a: seq<char>, minLength: nat, maxLength: nat, parts: nat, range: (Word, Word) --> Result<seq<Word>, Error>)
    returns (ds: seq<Result<seq<Word>, Error>>)
    requires |a| >= 1 && 2 <= parts
    requires forall i :: 0 <= i < parts ==>
      range.requires(Boundary(a, minLength, maxLength, parts, i), Boundary(a, minLength, maxLength, parts, i + 1))
    ensures |ds| == parts
    ensures forall i :: 0 <= i < parts ==>
      ds[i] == range(Boundary(a, minLength, maxLength, parts, i), Boundary(a, minLength, maxLength, parts, i + 1))
  {
    var minVal := Repeat(a[0], minLength);
    assert BoundAt(|a|, parts, 1) == |a| / parts;
    var maxVal := Repeat(a[|a| / parts], maxLength);
    ds := [];
    var i := 1;
    while i <= parts
      invariant 1 <= i <= parts
      invariant |ds| == i - 1
      invariant forall k :: 0 <= k < i - 1 ==>
        ds[k] == range(Boundary(a, minLength, maxLength, parts, k), Boundary(a, minLength, maxLength, parts, k + 1))
      invariant minVal == Boundary(a, minLength, maxLength, parts, i - 1)
      invariant maxVal == Boundary(a, minLength, maxLength, parts, i)
      decreases parts - i
    {
      ds := ds + [range(minVal, maxVal)];
      minVal := maxVal;
      if i == parts {
        break;
      }
      if i != parts - 1 {
        assert BoundAt(|a|, parts, i + 1) == (i + 1) * |a| / parts;
        maxVal := Repeat(a[(i + 1) * |a| / parts], maxLength);
      } else {
        maxVal := Repeat(a[|a| - 1], maxLength);
      }
      i := i + 1;
    }
  }

  /** Over a sorted alphabet no upper bound comes ordinal-before its lower bound. */
  lemma {:induction false} BoundariesOrdered(a: seq<char>, minLength: nat, maxLength: nat, parts: nat, i: nat)
    requires Ascending(a) && |a| >= 1 && 2 <= parts && i < parts && 1 <= maxLength && minLength <= maxLength
    ensures !OrdinalLess(Boundary(a, minLength, maxLength, parts, i + 1), Boundary(a, minLength, maxLength, parts, i))
  {
    var x, y := BoundAt(|a|, parts, i), BoundAt(|a|, parts, i + 1);
    BoundAtMono(|a|, parts, i, i + 1);
    RepeatNotLess(a[x], if i == 0 then minLength else maxLength, a[y], maxLength);
  }

  // ----- codes of the boundaries -----

  /** At the top length the boundaries after the first have strictly increasing codes, up to the last distinct one. */
  lemma {:induction false} CodeStrict(a: seq<char>, minLength: nat, maxLength: nat, parts: nat, i: nat)
    requires Ascending(a) && 2 <= parts <= |a| && (parts < |a| || i + 1 < parts) && 1 <= maxLength && i < parts
    ensures var x, y := BoundAt(|a|, parts, i), BoundAt(|a|, parts, i + 1);
      Code(a, Repeat(a[x], maxLength)) < Code(a, Repeat(a[y], maxLength)) &&
      Code(a, Boundary(a, minLength, maxLength, parts, i + 1)) == Code(a, Repeat(a[y], maxLength))
  {
    var x, y := BoundAt(|a|, parts, i), BoundAt(|a|, parts, i + 1);
    BoundAtStrict(|a|, parts, i);
    RankRepeatLess(x, y, |a|, maxLength);
    RepeatCode(a, x, maxLength);
    RepeatCode(a, y, maxLength);
  }

  // ----- what each range yields -----

  /** A range between two boundaries at the top length yields the codes from one to the other inclusively. */
  lemma {:induction false} InnerPiece(a: seq<char>, minLength: nat, maxLength: nat, parts: nat, i: nat)
    requires Ascending(a) && 2 <= parts <= |a| && (parts < |a| || i + 1 < parts) && 1 <= minLength <= maxLength && 1 <= i < parts
    ensures Piece(a, minLength, maxLength, parts, i).Success?
    ensures |Piece(a, minLength, maxLength, parts, i).value| ==
      Code(a, Boundary(a, minLength, maxLength, parts, i + 1)) - Code(a, Boundary(a, minLength, maxLength, parts, i)) + 1
  {
    var lo, hi := Boundary(a, minLength, maxLength, parts, i), Boundary(a, minLength, maxLength, parts, i + 1);
    CodeStrict(a, minLength, maxLength, parts, i);
    BoundsAt(a, lo, hi, maxLength);
    assert !Inverted(a, lo, hi, maxLength);
    RangeFault(a, lo, hi, maxLength);
    RangeCount(a, lo, hi, maxLength);
  }

  /** A length whose start comes strictly before its end is not inverted and yields its inclusive run. */
  lemma {:induction false} RunFromBounds(a: seq<char>, minP: Word, maxP: Word, n: nat)
    requires Over(a, minP) && Over(a, maxP) && |a| >= 1 && |minP| <= n <= |maxP|
    requires Lower(a, minP, n) < Upper(a, maxP, n)
    ensures !Inverted(a, minP, maxP, n)
    ensures RunSize(a, minP, maxP, n) == Upper(a, maxP, n) - Lower(a, minP, n) + 1
  {
  }

  /** At each length the first range starts at code 0 and ends at the top code, or at boundary 1 at the top length. */
  lemma {:induction false} FirstBounds(a: seq<char>, minLength: nat, maxLength: nat, parts: nat, n: nat)
    requires Ascending(a) && 2 <= parts <= |a| && 1 <= minLength <= n <= maxLength
    ensures var lo, hi := Boundary(a, minLength, maxLength, parts, 0), Boundary(a, minLength, maxLength, parts, 1);
      Lower(a, lo, n) == 0 &&
      Upper(a, hi, n) == (if n < maxLength then Pow(|a|, n) - 1 else Code(a, hi)) &&
      Upper(a, hi, n) >= 1
  {
    var lo, hi := Boundary(a, minLength, maxLength, parts, 0), Boundary(a, minLength, maxLength, parts, 1);
    AscendingUnique(a);
    RepeatFirst(a, minLength);
    RepeatFirst(a, maxLength);
    CodeStrict(a, minLength, maxLength, parts, 0);
    BoundsAt(a, lo, hi, n);
    PowAtLeast(|a|, n);
  }

  /** One length of the first range: a whole length below the top, the codes up to boundary 1 at the top. */
  lemma {:induction false} FirstRunAt(a: seq<char>, minLength: nat, maxLength: nat, parts: nat, n: nat)
    requires Ascending(a) && 2 <= parts <= |a| && 1 <= minLength <= n <= maxLength
    ensures var lo, hi := Boundary(a, minLength, maxLength, parts, 0), Boundary(a, minLength, maxLength, parts, 1);
      !Inverted(a, lo, hi, n) &&
      RunSize(a, lo, hi, n) == if n < maxLength then Pow(|a|, n) else Code(a, hi) + 1
  {
    var lo, hi := Boundary(a, minLength, maxLength, parts, 0), Boundary(a, minLength, maxLength, parts, 1);
    FirstBounds(a, minLength, maxLength, parts, n);
    RunFromBounds(a, lo, hi, n);
  }

  /** The lengths `n..maxLength` of the first range. */
  lemma {:induction false} FirstRun(a: seq<char>, minLength: nat, maxLength: nat, parts: nat, n: nat)
    requires Ascending(a) && 2 <= parts <= |a| && 1 <= minLength <= n <= maxLength
    ensures var lo, hi := Boundary(a, minLength, maxLength, parts, 0), Boundary(a, minLength, maxLength, parts, 1);
      RangeSize(a, lo, hi, n) == PowerSum(|a|, n, maxLength - 1) + Code(a, hi) + 1
    decreases maxLength - n
  {
    if n < maxLength {
      FirstRun(a, minLength, maxLength, parts, n + 1);
      FirstRunStep(a, minLength, maxLength, parts, n);
    } else {
      FirstRunTop(a, minLength, maxLength, parts);
    }
  }

  /** The top length of the first range yields the codes up to boundary 1. */
  lemma {:induction false} FirstRunTop(a: seq<char>, minLength: nat, maxLength: nat, parts: nat)
    requires Ascending(a) && 2 <= parts <= |a| && 1 <= minLength <= maxLength
    ensures var lo, hi := Boundary(a, minLength, maxLength, parts, 0), Boundary(a, minLength, maxLength, parts, 1);
      RangeSize(a, lo, hi, maxLength) == PowerSum(|a|, maxLength, maxLength - 1) + Code(a, hi) + 1
  {
    FirstRunAt(a, minLength, maxLength, parts, maxLength);
  }

  /** One step of `FirstRun`: a length below the top adds a whole length. */
  lemma {:induction false} FirstRunStep(a: seq<char>, minLength: nat, maxLength: nat, parts: nat, n: nat)
    requires Ascending(a) && 2 <= parts <= |a| && 1 <= minLength <= n < maxLength
    requires var lo, hi := Boundary(a, minLength, maxLength, parts, 0), Boundary(a, minLength, maxLength, parts, 1);
      RangeSize(a, lo, hi, n + 1) == PowerSum(|a|, n + 1, maxLength - 1) + Code(a, hi) + 1
    ensures var lo, hi := Boundary(a, minLength, maxLength, parts, 0), Boundary(a, minLength, maxLength, parts, 1);
      RangeSize(a, lo, hi, n) == PowerSum(|a|, n, maxLength - 1) + Code(a, hi) + 1
  {
    FirstRunAt(a, minLength, maxLength, parts, n);
  }

  /** The first range yields every word of the lengths below the top, then the codes up to boundary 1. */
  lemma {:induction false} FirstPiece(a: seq<char>, minLength: nat, maxLength: nat, parts: nat)
    requires Ascending(a) && 2 <= parts <= |a| && 1 <= minLength <= maxLength
    ensures Piece(a, minLength, maxLength, parts, 0).Success?
    ensures |Piece(a, minLength, maxLength, parts, 0).value| ==
      PowerSum(|a|, minLength, maxLength - 1) + Code(a, Boundary(a, minLength, maxLength, parts, 1)) + 1
  {
    var lo, hi := Boundary(a, minLength, maxLength, parts, 0), Boundary(a, minLength, maxLength, parts, 1);
    forall m | minLength <= m <= maxLength
      ensures !Inverted(a, lo, hi, m)
    {
      FirstRunAt(a, minLength, maxLength, parts, m);
    }
    FirstRun(a, minLength, maxLength, parts, minLength);
    RangeFault(a, lo, hi, minLength);
    RangeCount(a, lo, hi, minLength);
  }

  /** Every range of a sorted alphabet with at least as many symbols as ranges yields without a fault. */
  lemma {:induction false} PieceSucceeds(a: seq<char>, minLength: nat, maxLength: nat, parts: nat, i: nat)
    requires Ascending(a) && 2 <= parts <= |a| && 1 <= minLength <= maxLength && i < parts
    ensures Piece(a, minLength, maxLength, parts, i).Success?
  {
    if i == 0 {
      FirstPiece(a, minLength, maxLength, parts);
    } else if parts == |a| && i + 1 == parts {
      LastPieceEmpty(a, minLength, maxLength, parts);
    } else {
      InnerPiece(a, minLength, maxLength, parts, i);
    }
  }

  // ----- the ranges together -----

  /** The number of words the ranges yield together; a faulting range adds nothing. */
  function TotalSize(ds: seq<Result<seq<Word>, Error>>): nat {
    if |ds| == 0 then 0
    else TotalSize(ds[..|ds| - 1]) + (if ds[|ds| - 1].Success? then |ds[|ds| - 1].value| else 0)
  }

  /** The first `m` dictionaries yield what the first `m - 1` do, and then what dictionary `m - 1` does. */
  lemma {:induction false} TotalSnoc(ds: seq<Result<seq<Word>, Error>>, m: nat)
    requires 1 <= m <= |ds|
    ensures TotalSize(ds[..m]) == TotalSize(ds[..m - 1]) + (if ds[m - 1].Success? then |ds[m - 1].value| else 0)
  {
    assert ds[..m][..m - 1] == ds[..m - 1];
  }

  /** `ds` holds the ranges of the partition, in order. */
  predicate IsPartition(ds: seq<Result<seq<Word>, Error>>, a: seq<char>, minLength: nat, maxLength: nat, parts: nat)
    requires |a| >= 1 && 2 <= parts
  {
    |ds| == parts && forall i {:trigger Piece(a, minLength, maxLength, parts, i)} :: 0 <= i < parts ==> ds[i] == Piece(a, minLength, maxLength, parts, i)
  }

  /** The first `m` ranges yield the lengths below the top, the codes up to boundary `m`, and one shared word per inner boundary. */
  lemma {:induction false} TotalUpTo(ds: seq<Result<seq<Word>, Error>>, a: seq<char>, minLength: nat, maxLength: nat, parts: nat, m: nat)
    requires Ascending(a) && 2 <= parts <= |a| && (parts < |a| || m < parts) && 1 <= minLength <= maxLength && 1 <= m <= parts
    requires IsPartition(ds, a, minLength, maxLength, parts)
    ensures TotalSize(ds[..m]) ==
      PowerSum(|a|, minLength, maxLength - 1) + Code(a, Boundary(a, minLength, maxLength, parts, m)) + 1 + (m - 1)
  {
    if m == 1 {
      assert ds[..1][..0] == [];
      FirstPiece(a, minLength, maxLength, parts);
    } else {
      TotalUpTo(ds, a, minLength, maxLength, parts, m - 1);
      TotalSnoc(ds, m);
      InnerPiece(a, minLength, maxLength, parts, m - 1);
    }
  }

  /**
    Over a sorted alphabet with more symbols than ranges, every range yields without a fault,
    and together they yield `k^minLength + ... + k^maxLength` words plus one for each of the
    `parts - 1` boundaries that two neighbouring ranges share.
  */
  lemma {:induction false} PartitionTotal(ds: seq<Result<seq<Word>, Error>>, a: seq<char>, minLength: nat, maxLength: nat, parts: nat)
    requires Ascending(a) && 2 <= parts < |a| && 1 <= minLength <= maxLength
    requires IsPartition(ds, a, minLength, maxLength, parts)
    ensures forall i :: 0 <= i < parts ==> ds[i].Success?
    ensures TotalSize(ds) == PowerSum(|a|, minLength, maxLength) + parts - 1
  {
    forall i | 0 <= i < parts
      ensures ds[i].Success?
    {
      PieceSucceeds(a, minLength, maxLength, parts, i);
    }
    TotalUpTo(ds, a, minLength, maxLength, parts, parts);
    assert ds[..parts] == ds;
    AscendingUnique(a);
    RepeatLast(a, maxLength);
    PowerSumLast(|a|, minLength, maxLength);
  }

  /**
    With as many ranges as symbols, boundary `parts - 1` falls on index `(parts - 1) * parts / parts`,
    the last symbol, just as the closing boundary `parts` does.
  */
  lemma {:induction false} LastBoundaries(a: seq<char>, minLength: nat, maxLength: nat, parts: nat)
    requires 2 <= parts == |a|
    ensures Boundary(a, minLength, maxLength, parts, parts - 1) == Repeat(a[|a| - 1], maxLength)
    ensures Boundary(a, minLength, maxLength, parts, parts) == Repeat(a[|a| - 1], maxLength)
  {
    DivMod((parts - 1) * parts, parts, parts - 1, 0);
  }

  /** With as many ranges as symbols, the last range runs between two equal words and yields nothing. */
  lemma {:induction false} LastPieceEmpty(a: seq<char>, minLength: nat, maxLength: nat, parts: nat)
    requires 2 <= parts == |a| && 1 <= maxLength
    ensures Piece(a, minLength, maxLength, parts, parts - 1) == Success([])
  {
    var w := Repeat(a[|a| - 1], maxLength);
    LastBoundaries(a, minLength, maxLength, parts);
    BoundsAt(a, w, w, maxLength);
    assert !Inverted(a, w, w, maxLength);
    RangeFault(a, w, w, maxLength);
    RangeCount(a, w, w, maxLength);
  }

  /**
    Over a sorted alphabet with exactly as many symbols as ranges, no range faults, the last one
    is empty, and the others yield `k^minLength + ... + k^maxLength` words plus one for each of
    the `parts - 2` boundaries they share: one fewer than with more symbols than ranges.
  */
  lemma {:induction false} PartitionTotalFull(ds: seq<Result<seq<Word>, Error>>, a: seq<char>, minLength: nat, maxLength: nat, parts: nat)
    requires Ascending(a) && 2 <= parts == |a| && 1 <= minLength <= maxLength
    requires IsPartition(ds, a, minLength, maxLength, parts)
    ensures forall i :: 0 <= i < parts ==> ds[i].Success?
    ensures ds[parts - 1] == Success([])
    ensures TotalSize(ds) == PowerSum(|a|, minLength, maxLength) + parts - 2
  {
    FullSucceeds(ds, a, minLength, maxLength, parts);
    LastPieceEmpty(a, minLength, maxLength, parts);
    FullTotalOf(ds, a, minLength, maxLength, parts);
  }

  /** With as many ranges as symbols, no range faults. */
  lemma {:induction false} FullSucceeds(ds: seq<Result<seq<Word>, Error>>, a: seq<char>, minLength: nat, maxLength: nat, parts: nat)
    requires Ascending(a) && 2 <= parts == |a| && 1 <= minLength <= maxLength
    requires IsPartition(ds, a, minLength, maxLength, parts)
    ensures forall i :: 0 <= i < parts ==> ds[i].Success?
  {
    forall i | 0 <= i < parts
      ensures ds[i].Success?
    {
      PieceSucceeds(a, minLength, maxLength, parts, i);
    }
  }

  /** With as many ranges as symbols, the ranges yield the whole space plus `parts - 2` shared words. */
  lemma {:induction false} FullTotalOf(ds: seq<Result<seq<Word>, Error>>, a: seq<char>, minLength: nat, maxLength: nat, parts: nat)
    requires Ascending(a) && 2 <= parts == |a| && 1 <= minLength <= maxLength
    requires IsPartition(ds, a, minLength, maxLength, parts)
    ensures TotalSize(ds) == PowerSum(|a|, minLength, maxLength) + parts - 2
  {
    TotalUpTo(ds, a, minLength, maxLength, parts, parts - 1);
    FullLastAddsNothing(ds, a, minLength, maxLength, parts);
    FullTotal(ds, a, minLength, maxLength, parts);
  }

  /** The total of `PartitionTotalFull`: the first `parts - 1` ranges reach the last code, the last range adds nothing. */
  lemma {:induction false} FullTotal(ds: seq<Result<seq<Word>, Error>>, a: seq<char>, minLength: nat, maxLength: nat, parts: nat)
    requires Ascending(a) && 2 <= parts == |a| == |ds| && 1 <= minLength <= maxLength
    requires TotalSize(ds[..parts - 1]) ==
      PowerSum(|a|, minLength, maxLength - 1) + Code(a, Boundary(a, minLength, maxLength, parts, parts - 1)) + 1 + (parts - 1 - 1)
    requires TotalSize(ds) == TotalSize(ds[..parts - 1])
    ensures TotalSize(ds) == PowerSum(|a|, minLength, maxLength) + parts - 2
  {
    FullLastCode(a, minLength, maxLength, parts);
    PowerSumLast(|a|, minLength, maxLength);
  }

  /** With as many ranges as symbols, the last range adds nothing to the total. */
  lemma {:induction false} FullLastAddsNothing(ds: seq<Result<seq<Word>, Error>>, a: seq<char>, minLength: nat, maxLength: nat, parts: nat)
    requires 2 <= parts == |a| == |ds| && 1 <= maxLength
    requires ds[parts - 1] == Piece(a, minLength, maxLength, parts, parts - 1)
    ensures TotalSize(ds) == TotalSize(ds[..parts - 1])
  {
    LastPieceEmpty(a, minLength, maxLength, parts);
    TotalSnoc(ds, parts);
    assert ds[..parts] == ds;
  }

  /** With as many ranges as symbols, boundary `parts - 1` has the top code of its length. */
  lemma {:induction false} FullLastCode(a: seq<char>, minLength: nat, maxLength: nat, parts: nat)
    requires Ascending(a) && 2 <= parts == |a|
    ensures Code(a, Boundary(a, minLength, maxLength, parts, parts - 1)) == Pow(|a|, maxLength) - 1
  {
    LastBoundaries(a, minLength, maxLength, parts);
    AscendingUnique(a);
    RepeatLast(a, maxLength);
  }

  /** At the top length each range starts strictly before it ends, and ends at its upper boundary. */
  lemma {:induction false} AtTop(a: seq<char>, minLength: nat, maxLength: nat, parts: nat, i: nat)
    requires Ascending(a) && 2 <= parts < |a| && 1 <= minLength <= maxLength && i < parts
    ensures var lo, hi := Boundary(a, minLength, maxLength, parts, i), Boundary(a, minLength, maxLength, parts, i + 1);
      Lower(a, lo, maxLength) < Upper(a, hi, maxLength) == Code(a, hi) &&
      (i >= 1 ==> Lower(a, lo, maxLength) == Code(a, lo))
  {
    var lo, hi := Boundary(a, minLength, maxLength, parts, i), Boundary(a, minLength, maxLength, parts, i + 1);
    AscendingUnique(a);
    CodeStrict(a, minLength, maxLength, parts, i);
    RepeatFirst(a, minLength);
    RepeatFirst(a, maxLength);
    BoundsAt(a, lo, hi, maxLength);
  }

  /** A range whose top length ends strictly after it starts yields its upper bound. */
  lemma {:induction false} EndsRun(a: seq<char>, minP: Word, maxP: Word)
    requires Unique(a) && |a| >= 1 && Over(a, minP) && Over(a, maxP) && |minP| <= |maxP|
    requires RangeFrom(a, minP, maxP, |minP|).Success?
    requires Lower(a, minP, |maxP|) < Upper(a, maxP, |maxP|) == Code(a, maxP)
    ensures maxP in RangeFrom(a, minP, maxP, |minP|).value
  {
    RangeMember(a, minP, maxP, |minP|, maxP);
  }

  /** A range whose bottom length ends strictly after it starts yields its lower bound. */
  lemma {:induction false} StartsRun(a: seq<char>, minP: Word, maxP: Word)
    requires Unique(a) && |a| >= 1 && Over(a, minP) && Over(a, maxP) && |minP| <= |maxP|
    requires RangeFrom(a, minP, maxP, |minP|).Success?
    requires Code(a, minP) == Lower(a, minP, |minP|) < Upper(a, maxP, |minP|)
    ensures minP in RangeFrom(a, minP, maxP, |minP|).value
  {
    RangeMember(a, minP, maxP, |minP|, minP);
  }

  /** Each inner boundary is the last word the range before it yields. */
  lemma {:induction false} BoundaryEnds(a: seq<char>, minLength: nat, maxLength: nat, parts: nat, i: nat)
    requires Ascending(a) && 2 <= parts < |a| && 1 <= minLength <= maxLength && 1 <= i < parts
    ensures Piece(a, minLength, maxLength, parts, i - 1).Success?
    ensures Boundary(a, minLength, maxLength, parts, i) in Piece(a, minLength, maxLength, parts, i - 1).value
  {
    var j := i - 1;
    var p, b := Boundary(a, minLength, maxLength, parts, j), Boundary(a, minLength, maxLength, parts, j + 1);
    AscendingUnique(a);
    PieceSucceeds(a, minLength, maxLength, parts, j);
    assert Piece(a, minLength, maxLength, parts, j) == RangeFrom(a, p, b, |p|);
    AtTop(a, minLength, maxLength, parts, j);
    EndsRun(a, p, b);
  }

  /** Each inner boundary is the first word the range after it yields. */
  lemma {:induction false} BoundaryStarts(a: seq<char>, minLength: nat, maxLength: nat, parts: nat, i: nat)
    requires Ascending(a) && 2 <= parts < |a| && 1 <= minLength <= maxLength && 1 <= i < parts
    ensures Piece(a, minLength, maxLength, parts, i).Success?
    ensures Boundary(a, minLength, maxLength, parts, i) in Piece(a, minLength, maxLength, parts, i).value
  {
    var b, q := Boundary(a, minLength, maxLength, parts, i), Boundary(a, minLength, maxLength, parts, i + 1);
    AscendingUnique(a);
    PieceSucceeds(a, minLength, maxLength, parts, i);
    AtTop(a, minLength, maxLength, parts, i);
    StartsRun(a, b, q);
  }

  /** Neighbouring ranges share their common boundary. */
  lemma {:induction false} SharedBoundary(a: seq<char>, minLength: nat, maxLength: nat, parts: nat, i: nat)
    requires Ascending(a) && 2 <= parts < |a| && 1 <= minLength <= maxLength && 1 <= i < parts
    ensures Piece(a, minLength, maxLength, parts, i - 1).Success? && Piece(a, minLength, maxLength, parts, i).Success?
    ensures Boundary(a, minLength, maxLength, parts, i) in Piece(a, minLength, maxLength, parts, i - 1).value
    ensures Boundary(a, minLength, maxLength, parts, i) in Piece(a, minLength, maxLength, parts, i).value
  {
    BoundaryEnds(a, minLength, maxLength, parts, i);
    BoundaryStarts(a, minLength, maxLength, parts, i);
  }

  /** Inner boundary `i` is yielded both by the range it ends and by the range it starts. */
  predicate SharedAt(ds: seq<Result<seq<Word>, Error>>, a: seq<char>, minLength: nat, maxLength: nat, parts: nat, i: nat)
    requires |a| >= 1 && 2 <= parts && |ds| == parts && 1 <= i < parts
  {
    ds[i - 1].Success? && ds[i].Success? &&
    Boundary(a, minLength, maxLength, parts, i) in ds[i - 1].value &&
    Boundary(a, minLength, maxLength, parts, i) in ds[i].value
  }

  /** Each inner boundary is yielded both by the range it ends and by the range it starts. */
  predicate Shares(ds: seq<Result<seq<Word>, Error>>, a: seq<char>, minLength: nat, maxLength: nat, parts: nat)
    requires |a| >= 1 && 2 <= parts && |ds| == parts
  {
    forall i :: 1 <= i < parts ==> SharedAt(ds, a, minLength, maxLength, parts, i)
  }

  /** Over a sorted alphabet with more symbols than ranges, neighbouring ranges of the partition share their boundary. */
  lemma {:induction false} PartitionShares(ds: seq<Result<seq<Word>, Error>>, a: seq<char>, minLength: nat, maxLength: nat, parts: nat)
    requires Ascending(a) && 2 <= parts < |a| && 1 <= minLength <= maxLength
    requires IsPartition(ds, a, minLength, maxLength, parts)
    ensures Shares(ds, a, minLength, maxLength, parts)
  {
    forall i | 1 <= i < parts
      ensures SharedAt(ds, a, minLength, maxLength, parts, i)
    {
      SharedBoundary(a, minLength, maxLength, parts, i);
      assert ds[i - 1] == Piece(a, minLength, maxLength, parts, i - 1) && ds[i] == Piece(a, minLength, maxLength, parts, i);
    }
  }
}
