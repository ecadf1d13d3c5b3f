/**
  The dictionaries as sequences of words: what the unbounded, the per-position and the range
  enumerators yield, and the loops over the lengths that produce them from the odometer.
  Every revision of the enumerators shares these; they differ only in how they validate.
*/
module Enumeration {
  import opened Wrappers
  import opened Odometer
  import opened Alphabet

  /** The radices of the first `n` positions: the sizes of their alphabets. */
  function RadicesOf(alphabets: seq<seq<char>>, n: nat): seq<nat>
    requires n <= |alphabets|
  {
    seq(n, i requires 0 <= i < n => |alphabets[i]|)
  }

  /** Every alphabet of the list has at least one symbol. */
  predicate NonEmpty(alphabets: seq<seq<char>>) {
    forall i :: 0 <= i < |alphabets| ==> |alphabets[i]| >= 1
  }

  /** The radices `r` never exceed the alphabets they index. */
  predicate Covers(alphabets: seq<seq<char>>, r: seq<nat>) {
    |r| <= |alphabets| && forall i :: 0 <= i < |r| ==> r[i] <= |alphabets[i]|
  }

  /** The words spelled by the digit vectors `vs`, in their order. */
  function SpellAll(alphabets: seq<seq<char>>, r: seq<nat>, vs: seq<seq<nat>>): (ws: seq<Word>)
    requires Covers(alphabets, r) && forall i :: 0 <= i < |vs| ==> IsDigits(vs[i], r)
    ensures |ws| == |vs|
  {
    assert forall i :: 0 <= i < |vs| ==> Fits(alphabets, vs[i]) by {
      forall i | 0 <= i < |vs|
        ensures Fits(alphabets, vs[i])
      {
        var v := vs[i];
        assert IsDigits(v, r);
        assert forall j :: 0 <= j < |v| ==> v[j] < r[j] <= |alphabets[j]|;
      }
    }
    seq(|vs|, i requires 0 <= i < |vs| => Spell(alphabets, vs[i]))
  }

  // ----- the unbounded and the per-position enumerators -----

  /** What one length `n` yields: the odometer sweep over the radices of the first `n` alphabets, spelled. */
  function LengthWords(alphabets: seq<seq<char>>, n: nat): seq<Word>
    requires 1 <= n <= |alphabets| && NonEmpty(alphabets)
  {
    var r := RadicesOf(alphabets, n);
    SpellAll(alphabets, r, Span(r, 0, SweepCount(r)))
  }

  /** The lengths `lo..hi` in ascending order, each as `LengthWords` gives it. */
  function Words(alphabets: seq<seq<char>>, lo: nat, hi: nat): seq<Word>
    requires 1 <= lo && hi <= |alphabets| && NonEmpty(alphabets)
    decreases hi
  {
    if hi < lo then [] else Words(alphabets, lo, hi - 1) + LengthWords(alphabets, hi)
  }

  /** The loop over the lengths: an odometer sweep per length, every vector spelled. */
  method SweepWords(alphabets: seq<seq<char>>, lo: nat, hi: nat) returns (out: seq<Word>)
    requires 1 <= lo <= hi <= |alphabets| && NonEmpty(alphabets)
    ensures out == Words(alphabets, lo, hi)
  {
    out := [];
    var n := lo;
    while n <= hi
      invariant lo <= n <= hi + 1
      invariant out == Words(alphabets, lo, n - 1)
    {
      var r := RadicesOf(alphabets, n);
      var vs := SweepLength(r);
      out := out + SpellAll(alphabets, r, vs);
      n := n + 1;
    }
  }

  // ----- the range enumerator -----

  /** Every symbol of `w` is in the alphabet `a`. */
  predicate Over(a: seq<char>, w: Word) {
    forall i :: 0 <= i < |w| ==> w[i] in a
  }

  /** Every word of `ws` has `m` symbols. */
  predicate AllLength(ws: seq<Word>, m: nat) {
    forall i :: 0 <= i < |ws| ==> |ws[i]| == m
  }

  /** Every word of `ws` is over `d`. */
  predicate AllOver(d: seq<char>, ws: seq<Word>) {
    forall i :: 0 <= i < |ws| ==> Over(d, ws[i])
  }

  /** The start vector at length `n`: the lower bound's digits at its own length, zeros elsewhere. */
  function StartAt(a: seq<char>, minP: Word, n: nat): (s: seq<nat>)
    requires Over(a, minP) && |a| >= 1 && |minP| <= n
    ensures IsDigits(s, Uniform(|a|, n))
  {
    if n == |minP| then Digits(Repeat(a, n), minP) else Zeros(n)
  }

  /** The end vector at length `n`: the upper bound's digits at its own length, all-maximum elsewhere. */
  function EndAt(a: seq<char>, maxP: Word, n: nat): (e: seq<nat>)
    requires Over(a, maxP) && |a| >= 1 && n <= |maxP|
    ensures IsDigits(e, Uniform(|a|, n))
  {
    if n == |maxP| then Digits(Repeat(a, n), maxP) else Top(Uniform(|a|, n))
  }

  /** `out` followed by the words of `rest`, or the fault of `rest`. */
  function Then(out: seq<Word>, rest: Result<seq<Word>, Error>): Result<seq<Word>, Error> {
    match rest
    case Success(ws) => Success(out + ws)
    case Failure(e) => Failure(e)
  }

  lemma {:induction false} ThenNil(out: seq<Word>, rest: Result<seq<Word>, Error>)
    ensures Then([], rest) == rest && Then(out, Success([])) == Success(out)
  {
    assert out + [] == out;
    if rest.Success? {
      assert [] + rest.value == rest.value;
    }
  }

  /**
    What the range enumerator yields from length `n` on: at each length up to the upper
    bound's, the run of that length from its start vector to its end vector, spelled.  Length
    zero faults (the lower bound's last symbol is read at position -1), and so does a length
    whose start comes after its end (the carry runs off the front of the vector).
  */
  function RangeFrom(a: seq<char>, minP: Word, maxP: Word, n: nat): Result<seq<Word>, Error>
    requires Over(a, minP) && Over(a, maxP) && |minP| <= n
    decreases |maxP| + 1 - n
  {
    if n > |maxP| then Success([])
    else if n == 0 then Failure(IndexOutOfRange)
    else
      assert maxP[0] in a;
      var r := Uniform(|a|, n);
      match RangeSpan(r, StartAt(a, minP, n), EndAt(a, maxP, n))
      case Failure(_) => Failure(IndexOutOfRange)
      case Success(vs) => Then(SpellAll(Repeat(a, n), r, vs), RangeFrom(a, minP, maxP, n + 1))
  }

  /** One length of the range enumerator, unfolded. */
  lemma {:induction false} RangeFromStep(a: seq<char>, minP: Word, maxP: Word, n: nat)
    requires Over(a, minP) && Over(a, maxP) && |minP| <= n && 1 <= n <= |maxP|
    ensures |a| >= 1 && Covers(Repeat(a, n), Uniform(|a|, n))
    ensures var r := Uniform(|a|, n);
      var run := RangeSpan(r, StartAt(a, minP, n), EndAt(a, maxP, n));
      RangeFrom(a, minP, maxP, n) == if run.Failure? then Failure(IndexOutOfRange)
        else Then(SpellAll(Repeat(a, n), r, run.value), RangeFrom(a, minP, maxP, n + 1))
  {
    assert maxP[0] in a;
  }

  lemma {:induction false} ThenAssoc(out: seq<Word>, ws: seq<Word>, rest: Result<seq<Word>, Error>)
    ensures Then(out, Then(ws, rest)) == Then(out + ws, rest)
  {
    if rest.Success? {
      assert out + (ws + rest.value) == out + ws + rest.value;
    }
  }

  /** One length of the range enumerator: the odometer run from its start to its end vector, spelled. */
  method RangeLength(a: seq<char>, minP: Word, maxP: Word, n: nat) returns (res: Result<seq<Word>, Error>)
    requires Over(a, minP) && Over(a, maxP) && |minP| <= n && 1 <= n <= |maxP|
    ensures res.Failure? ==> res == RangeFrom(a, minP, maxP, n) == Failure(IndexOutOfRange)
    ensures res.Success? ==> RangeFrom(a, minP, maxP, n) == Then(res.value, RangeFrom(a, minP, maxP, n + 1))
  {
    RangeFromStep(a, minP, maxP, n);
    var r := Uniform(|a|, n);
    var run := SweepRange(r, StartAt(a, minP, n), EndAt(a, maxP, n));
    if run.Failure? {
      return Failure(IndexOutOfRange);
    }
    return Success(SpellAll(Repeat(a, n), r, run.value));
  }

  /** The loop over the lengths of the range enumerator, an odometer run per length. */
  method SweepRangeWords(a: seq<char>, minP: Word, maxP: Word) returns (res: Result<seq<Word>, Error>)
    requires Over(a, minP) && Over(a, maxP)
    ensures res == RangeFrom(a, minP, maxP, |minP|)
  {
    var out := [];
    var n := |minP|;
    ThenNil([], RangeFrom(a, minP, maxP, n));
    while n <= |maxP|
      invariant |minP| <= n
      invariant RangeFrom(a, minP, maxP, |minP|) == Then(out, RangeFrom(a, minP, maxP, n))
      decreases |maxP| + 1 - n
    {
      if n == 0 {
        return Failure(IndexOutOfRange);
      }
      var run := RangeLength(a, minP, maxP, n);
      if run.Failure? {
        return run;
      }
      ThenAssoc(out, run.value, RangeFrom(a, minP, maxP, n + 1));
      out := out + run.value;
      n := n + 1;
    }
    ThenNil(out, Success([]));
    return Success(out);
  }
}
