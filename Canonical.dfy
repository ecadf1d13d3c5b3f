/**
  What the dictionaries of the unbounded and per-position enumerators contain: how many
  words, in which order, and exactly which ones.
*/
module Canonical {
  import opened Wrappers
  import opened Odometer
  import opened Alphabet
  import opened Enumeration

  /** No alphabet of the list repeats a symbol. */
  predicate UniqueAll(alphabets: seq<seq<char>>) {
    forall i {:trigger Unique(alphabets[i])} :: 0 <= i < |alphabets| ==> Unique(alphabets[i])
  }

  /** The rank of a word among the words of its length. */
  function WordRank(alphabets: seq<seq<char>>, w: Word): nat
    requires Spellable(alphabets, w)
  {
    Rank(Digits(alphabets, w), RadicesOf(alphabets, |w|))
  }

  /** Canonical order: shorter words first, then the digit vectors in dictionary order. */
  predicate Precedes(alphabets: seq<seq<char>>, u: Word, w: Word)
    requires Spellable(alphabets, u) && Spellable(alphabets, w)
  {
    |u| < |w| || (|u| == |w| && LexLess(Digits(alphabets, u), Digits(alphabets, w)))
  }

  // ----- one run of one length -----

  /** `r` holds the radices of the first `|r|` alphabets. */
  predicate RadicesFor(alphabets: seq<seq<char>>, r: seq<nat>) {
    |r| <= |alphabets| && r == RadicesOf(alphabets, |r|)
  }

  /** The `i`-th word of a spelled run is the spelling of the vector of rank `lo + i`. */
  lemma {:induction false} RunAt(alphabets: seq<seq<char>>, r: seq<nat>, lo: nat, hi: nat, i: nat)
    requires RadicesFor(alphabets, r) && UniqueAll(alphabets) && lo <= hi <= Size(r) && i < hi - lo
    ensures var w := SpellAll(alphabets, r, Span(r, lo, hi))[i];
      |w| == |r| && Spellable(alphabets, w) && WordRank(alphabets, w) == lo + i
  {
    var v := Span(r, lo, hi)[i];
    assert SpellAll(alphabets, r, Span(r, lo, hi))[i] == Spell(alphabets, v);
    DigitsSpell(alphabets, v);
  }

  /** A spelled run holds exactly the words of its length whose rank lies in the run. */
  lemma {:induction false} RunMember(alphabets: seq<seq<char>>, r: seq<nat>, lo: nat, hi: nat, w: Word)
    requires RadicesFor(alphabets, r) && UniqueAll(alphabets) && lo <= hi <= Size(r)
    ensures w in SpellAll(alphabets, r, Span(r, lo, hi)) <==>
      |w| == |r| && Spellable(alphabets, w) && lo <= WordRank(alphabets, w) < hi
  {
    var ws := SpellAll(alphabets, r, Span(r, lo, hi));
    if w in ws {
      var i :| 0 <= i < |ws| && ws[i] == w;
      RunAt(alphabets, r, lo, hi, i);
    }
    if |w| == |r| && Spellable(alphabets, w) {
      var v := Digits(alphabets, w);
      var k := Rank(v, r);
      if lo <= k < hi {
        SpellDigits(alphabets, w);
        var u := Span(r, lo, hi)[k - lo];
        assert ws[k - lo] == Spell(alphabets, u);
        RankInjective(u, v, r);
      }
    }
  }

  // ----- one length -----

  /** The `i`-th word of a length is the spelling of the vector of rank `i`. */
  lemma {:induction false} LengthWordsAt(alphabets: seq<seq<char>>, n: nat, i: nat)
    requires 1 <= n <= |alphabets| && NonEmpty(alphabets) && UniqueAll(alphabets)
    requires i < |LengthWords(alphabets, n)|
    ensures |LengthWords(alphabets, n)[i]| == n && Spellable(alphabets, LengthWords(alphabets, n)[i])
    ensures WordRank(alphabets, LengthWords(alphabets, n)[i]) == i
  {
    var r := RadicesOf(alphabets, n);
    RunAt(alphabets, r, 0, SweepCount(r), i);
  }

  /** A length's run holds exactly the words of that length whose rank the sweep reaches. */
  lemma {:induction false} LengthWordsMember(alphabets: seq<seq<char>>, n: nat, w: Word)
    requires 1 <= n <= |alphabets| && NonEmpty(alphabets) && UniqueAll(alphabets)
    ensures w in LengthWords(alphabets, n) <==>
      |w| == n && Spellable(alphabets, w) && WordRank(alphabets, w) < SweepCount(RadicesOf(alphabets, n))
  {
    var r := RadicesOf(alphabets, n);
    RunMember(alphabets, r, 0, SweepCount(r), w);
  }

  /** Within a length the words come in dictionary order of their digit vectors. */
  lemma {:induction false} LengthWordsOrdered(alphabets: seq<seq<char>>, n: nat, i: nat, j: nat)
    requires 1 <= n <= |alphabets| && NonEmpty(alphabets) && UniqueAll(alphabets)
    requires i < j < |LengthWords(alphabets, n)|
    ensures Spellable(alphabets, LengthWords(alphabets, n)[i]) && Spellable(alphabets, LengthWords(alphabets, n)[j])
    ensures Precedes(alphabets, LengthWords(alphabets, n)[i], LengthWords(alphabets, n)[j])
  {
    var ws := LengthWords(alphabets, n);
    var r := RadicesOf(alphabets, n);
    LengthWordsAt(alphabets, n, i);
    LengthWordsAt(alphabets, n, j);
    assert Rank(Digits(alphabets, ws[i]), r) < Rank(Digits(alphabets, ws[j]), r);
    LexIffRank(Digits(alphabets, ws[i]), Digits(alphabets, ws[j]), r);
  }

  // ----- all the lengths -----

  /** Membership in a concatenation is membership in one of its parts. */
  lemma {:induction false} InAppend<T>(p: seq<T>, q: seq<T>, x: T)
    ensures x in p + q <==> x in p || x in q
  {
  }

  /** Indexing past the first part of a concatenation indexes the second part. */
  lemma {:induction false} AppendAt<T>(p: seq<T>, q: seq<T>, k: nat, k': nat)
    requires |p| <= k < |p| + |q| && k' == k - |p|
    ensures (p + q)[k] == q[k']
  {
  }

  /** The words of the shorter lengths keep their places. */
  lemma {:induction false} WordsPrefix(alphabets: seq<seq<char>>, lo: nat, hi: nat, i: nat)
    requires 1 <= lo <= hi <= |alphabets| && NonEmpty(alphabets)
    requires i < |Words(alphabets, lo, hi - 1)|
    ensures i < |Words(alphabets, lo, hi)| && Words(alphabets, lo, hi)[i] == Words(alphabets, lo, hi - 1)[i]
  {
  }

  /** The words after those of the shorter lengths are the last length's, in rank order. */
  lemma {:induction false} WordsLast(alphabets: seq<seq<char>>, lo: nat, hi: nat, i: nat)
    requires 1 <= lo <= hi <= |alphabets| && NonEmpty(alphabets) && UniqueAll(alphabets)
    requires |Words(alphabets, lo, hi - 1)| <= i < |Words(alphabets, lo, hi)|
    ensures var w := Words(alphabets, lo, hi)[i];
      |w| == hi && Spellable(alphabets, w) && WordRank(alphabets, w) == i - |Words(alphabets, lo, hi - 1)|
  {
    var p, q := Words(alphabets, lo, hi - 1), LengthWords(alphabets, hi);
    var k := i - |p|;
    AppendAt(p, q, i, k);
    LengthWordsAt(alphabets, hi, k);
  }

  /** Every word has a length in `lo..hi`, shorter than `hi` exactly before the last length, and is spelled from the alphabets. */
  lemma {:induction false} WordsShape(alphabets: seq<seq<char>>, lo: nat, hi: nat, i: nat)
    requires 1 <= lo && hi <= |alphabets| && NonEmpty(alphabets) && UniqueAll(alphabets)
    requires i < |Words(alphabets, lo, hi)|
    ensures lo <= |Words(alphabets, lo, hi)[i]| <= hi && Spellable(alphabets, Words(alphabets, lo, hi)[i])
    ensures |Words(alphabets, lo, hi)[i]| < hi <==> i < |Words(alphabets, lo, hi - 1)|
    decreases hi
  {
    if i < |Words(alphabets, lo, hi - 1)| {
      WordsPrefix(alphabets, lo, hi, i);
      WordsShape(alphabets, lo, hi - 1, i);
    } else {
      WordsLast(alphabets, lo, hi, i);
    }
  }

  /** Rank order within a length is the words' canonical order. */
  lemma {:induction false} PrecedesIffRank(alphabets: seq<seq<char>>, u: Word, w: Word)
    requires Spellable(alphabets, u) && Spellable(alphabets, w)
    ensures Precedes(alphabets, u, w) <==>
      |u| < |w| || (|u| == |w| && WordRank(alphabets, u) < WordRank(alphabets, w))
  {
    if |u| == |w| {
      var r := RadicesOf(alphabets, |u|);
      var du, dw := Digits(alphabets, u), Digits(alphabets, w);
      assert IsDigits(du, r) && IsDigits(dw, r);
      LexIffRank(du, dw, r);
    }
  }

  /** `u` comes before `w`: it is shorter, or as long and of smaller rank. */
  predicate RankedBefore(alphabets: seq<seq<char>>, u: Word, w: Word) {
    Spellable(alphabets, u) && Spellable(alphabets, w) &&
    (|u| < |w| || (|u| == |w| && WordRank(alphabets, u) < WordRank(alphabets, w)))
  }

  /** A step of `WordsRanked`: two words of the shorter lengths keep their order. */
  lemma {:induction false} RankedEarly(alphabets: seq<seq<char>>, lo: nat, hi: nat, i: nat, j: nat)
    requires 1 <= lo <= hi <= |alphabets| && NonEmpty(alphabets)
    requires i < j < |Words(alphabets, lo, hi - 1)|
    requires RankedBefore(alphabets, Words(alphabets, lo, hi - 1)[i], Words(alphabets, lo, hi - 1)[j])
    ensures j < |Words(alphabets, lo, hi)|
    ensures RankedBefore(alphabets, Words(alphabets, lo, hi)[i], Words(alphabets, lo, hi)[j])
  {
    WordsPrefix(alphabets, lo, hi, i);
    WordsPrefix(alphabets, lo, hi, j);
  }

  /** A step of `WordsRanked`: a word of the shorter lengths comes before one of the last length. */
  lemma {:induction false} RankedAcross(alphabets: seq<seq<char>>, lo: nat, hi: nat, i: nat, j: nat)
    requires 1 <= lo <= hi <= |alphabets| && NonEmpty(alphabets) && UniqueAll(alphabets)
    requires i < |Words(alphabets, lo, hi - 1)| <= j < |Words(alphabets, lo, hi)|
    ensures RankedBefore(alphabets, Words(alphabets, lo, hi)[i], Words(alphabets, lo, hi)[j])
  {
    WordsShape(alphabets, lo, hi, i);
    WordsLast(alphabets, lo, hi, j);
    ShorterBefore(alphabets, Words(alphabets, lo, hi)[i], Words(alphabets, lo, hi)[j]);
  }

  lemma {:induction false} ShorterBefore(alphabets: seq<seq<char>>, u: Word, w: Word)
    requires Spellable(alphabets, u) && Spellable(alphabets, w) && |u| < |w|
    ensures RankedBefore(alphabets, u, w)
  {
  }

  /** A step of `WordsRanked`: two words of the last length come in rank order. */
  lemma {:induction false} RankedLate(alphabets: seq<seq<char>>, lo: nat, hi: nat, i: nat, j: nat)
    requires 1 <= lo <= hi <= |alphabets| && NonEmpty(alphabets) && UniqueAll(alphabets)
    requires |Words(alphabets, lo, hi - 1)| <= i < j < |Words(alphabets, lo, hi)|
    ensures RankedBefore(alphabets, Words(alphabets, lo, hi)[i], Words(alphabets, lo, hi)[j])
  {
    WordsLast(alphabets, lo, hi, i);
    WordsLast(alphabets, lo, hi, j);
  }

  /** The words come by length, and within a length by rank. */
  lemma {:induction false} WordsRanked(alphabets: seq<seq<char>>, lo: nat, hi: nat, i: nat, j: nat)
    requires 1 <= lo && hi <= |alphabets| && NonEmpty(alphabets) && UniqueAll(alphabets)
    requires i < j < |Words(alphabets, lo, hi)|
    ensures RankedBefore(alphabets, Words(alphabets, lo, hi)[i], Words(alphabets, lo, hi)[j])
    decreases hi
  {
    var p := |Words(alphabets, lo, hi - 1)|;
    if j < p {
      WordsRanked(alphabets, lo, hi - 1, i, j);
      RankedEarly(alphabets, lo, hi, i, j);
    } else if i < p {
      RankedAcross(alphabets, lo, hi, i, j);
    } else {
      RankedLate(alphabets, lo, hi, i, j);
    }
  }

  /** The words come in canonical order: by length, then by digit vector. */
  lemma {:induction false} WordsOrdered(alphabets: seq<seq<char>>, lo: nat, hi: nat, i: nat, j: nat)
    requires 1 <= lo && hi <= |alphabets| && NonEmpty(alphabets) && UniqueAll(alphabets)
    requires i < j < |Words(alphabets, lo, hi)|
    ensures Spellable(alphabets, Words(alphabets, lo, hi)[i]) && Spellable(alphabets, Words(alphabets, lo, hi)[j])
    ensures Precedes(alphabets, Words(alphabets, lo, hi)[i], Words(alphabets, lo, hi)[j])
  {
    WordsRanked(alphabets, lo, hi, i, j);
    PrecedesIffRank(alphabets, Words(alphabets, lo, hi)[i], Words(alphabets, lo, hi)[j]);
  }

  /** No word comes twice. */
  lemma {:induction false} WordsUnique(alphabets: seq<seq<char>>, lo: nat, hi: nat)
    requires 1 <= lo && hi <= |alphabets| && NonEmpty(alphabets) && UniqueAll(alphabets)
    ensures Unique(Words(alphabets, lo, hi))
  {
    var ws := Words(alphabets, lo, hi);
    forall i, j | 0 <= i < j < |ws|
      ensures ws[i] != ws[j]
    {
      WordsRanked(alphabets, lo, hi, i, j);
    }
  }

  /** Exactly the words of lengths `lo..hi` over the alphabets whose rank the sweep of their length reaches. */
  lemma {:induction false} WordsMember(alphabets: seq<seq<char>>, lo: nat, hi: nat, w: Word)
    requires 1 <= lo && hi <= |alphabets| && NonEmpty(alphabets) && UniqueAll(alphabets)
    ensures w in Words(alphabets, lo, hi) <==>
      lo <= |w| <= hi && Spellable(alphabets, w) && WordRank(alphabets, w) < SweepCount(RadicesOf(alphabets, |w|))
    decreases hi
  {
    if lo <= hi {
      WordsMember(alphabets, lo, hi - 1, w);
      InAppend(Words(alphabets, lo, hi - 1), LengthWords(alphabets, hi), w);
      LengthWordsMember(alphabets, hi, w);
    }
  }

  // ----- counts -----

  /** The number of candidates of lengths `lo..hi`: for each length, the product of its alphabets' sizes. */
  function SpaceSize(alphabets: seq<seq<char>>, lo: nat, hi: nat): nat
    requires 1 <= lo && hi <= |alphabets|
    decreases hi
  {
    if hi < lo then 0 else SpaceSize(alphabets, lo, hi - 1) + Size(RadicesOf(alphabets, hi))
  }

  /** The number of lengths in `lo..hi` whose last position has a one-symbol alphabet. */
  function Shortfall(alphabets: seq<seq<char>>, lo: nat, hi: nat): nat
    requires 1 <= lo && hi <= |alphabets|
    decreases hi
  {
    if hi < lo then 0 else Shortfall(alphabets, lo, hi - 1) + (if |alphabets[hi - 1]| == 1 then 1 else 0)
  }

  /** One length yields every candidate but the last one when its last alphabet has a single symbol. */
  lemma {:induction false} LengthWordsCount(alphabets: seq<seq<char>>, n: nat)
    requires 1 <= n <= |alphabets| && NonEmpty(alphabets)
    ensures |LengthWords(alphabets, n)| + (if |alphabets[n - 1]| == 1 then 1 else 0) == Size(RadicesOf(alphabets, n))
  {
    var r := RadicesOf(alphabets, n);
    assert r[n - 1] == |alphabets[n - 1]|;
  }

  /**
    Every candidate is yielded except the last one of each length whose last alphabet has a
    single symbol; with at least two symbols everywhere, the whole space is yielded.
  */
  lemma {:induction false} WordsCount(alphabets: seq<seq<char>>, lo: nat, hi: nat)
    requires 1 <= lo && hi <= |alphabets| && NonEmpty(alphabets)
    ensures |Words(alphabets, lo, hi)| + Shortfall(alphabets, lo, hi) == SpaceSize(alphabets, lo, hi)
    ensures (forall i :: 0 <= i < |alphabets| ==> |alphabets[i]| >= 2) ==>
      |Words(alphabets, lo, hi)| == SpaceSize(alphabets, lo, hi)
    decreases hi
  {
    if lo <= hi {
      WordsCount(alphabets, lo, hi - 1);
      LengthWordsCount(alphabets, hi);
    }
  }

  /** The radices of a repeated alphabet are uniform. */
  lemma {:induction false} RadicesRepeat(a: seq<char>, m: nat, n: nat)
    requires n <= m
    ensures RadicesOf(Repeat(a, m), n) == Uniform(|a|, n)
  {
  }

  /** A word spells over a repeated alphabet of its own length exactly when it is over the alphabet. */
  lemma {:induction false} SpellableRepeat(a: seq<char>, w: Word)
    ensures Spellable(Repeat(a, |w|), w) <==> Over(a, w)
  {
  }

  /** A repeated alphabet gives uniform radices, and keeps its symbols distinct if they were. */
  lemma {:induction false} RepeatFor(a: seq<char>, n: nat)
    ensures RadicesFor(Repeat(a, n), Uniform(|a|, n))
    ensures Unique(a) ==> UniqueAll(Repeat(a, n))
  {
    RadicesRepeat(a, n, n);
  }

  /**
    A single alphabet of `k >= 2` distinct symbols yields `k^lo + ... + k^hi` words; a
    one-symbol alphabet yields none at all.
  */
  lemma {:induction false} UniformCount(a: seq<char>, m: nat, lo: nat, hi: nat)
    requires |a| >= 1 && 1 <= lo && hi <= m
    ensures |a| >= 2 ==> |Words(Repeat(a, m), lo, hi)| == PowerSum(|a|, lo, hi)
    ensures |a| == 1 ==> |Words(Repeat(a, m), lo, hi)| == 0
    decreases hi
  {
    if lo <= hi {
      UniformCount(a, m, lo, hi - 1);
      RadicesRepeat(a, m, hi);
      SizeUniform(|a|, hi);
      PowerSumLast(|a|, lo, hi);
      var r := Uniform(|a|, hi);
      assert |LengthWords(Repeat(a, m), hi)| == SweepCount(r);
      if |a| == 1 {
        assert Pow(1, hi) == 1 by {
          PowOne(hi);
        }
      }
    }
  }

  // ----- the range enumerator -----

  /** The rank of `w` among the words of its length over the single alphabet `a`. */
  function Code(a: seq<char>, w: Word): nat
    requires Over(a, w)
  {
    WordRank(Repeat(a, |w|), w)
  }

  /** The rank the range enumerator starts from at length `m`. */
  function Lower(a: seq<char>, minP: Word, m: nat): nat
    requires Over(a, minP) && |a| >= 1 && |minP| <= m
  {
    Rank(StartAt(a, minP, m), Uniform(|a|, m))
  }

  /** The rank the range enumerator stops at, inclusively, at length `m`. */
  function Upper(a: seq<char>, maxP: Word, m: nat): nat
    requires Over(a, maxP) && |a| >= 1 && m <= |maxP|
  {
    Rank(EndAt(a, maxP, m), Uniform(|a|, m))
  }

  /**
    The lower bound counts only at its own length (rank 0 above it), the upper bound only at
    its own length (the last rank below it).
  */
  lemma {:induction false} BoundsAt(a: seq<char>, minP: Word, maxP: Word, m: nat)
    requires Over(a, minP) && Over(a, maxP) && |a| >= 1 && |minP| <= m <= |maxP|
    ensures Lower(a, minP, m) == if m == |minP| then Code(a, minP) else 0
    ensures Upper(a, maxP, m) == if m == |maxP| then Code(a, maxP) else Pow(|a|, m) - 1
  {
    var r := Uniform(|a|, m);
    RadicesRepeat(a, m, m);
    RankZeros(r);
    RankTop(r);
    SizeUniform(|a|, m);
  }

  /** At length `m` the range enumerator's start comes after its end. */
  predicate Inverted(a: seq<char>, minP: Word, maxP: Word, m: nat)
    requires Over(a, minP) && Over(a, maxP) && |a| >= 1 && |minP| <= m <= |maxP|
  {
    Upper(a, maxP, m) < Lower(a, minP, m)
  }

  /** One length of the range enumerator faults exactly when it is inverted, else the fault is the later lengths'. */
  lemma {:induction false} RangeFaultStep(a: seq<char>, minP: Word, maxP: Word, n: nat)
    requires Over(a, minP) && Over(a, maxP) && |minP| <= n && 1 <= n <= |maxP|
    ensures |a| >= 1
    ensures RangeFrom(a, minP, maxP, n).Failure? <==> Inverted(a, minP, maxP, n) || RangeFrom(a, minP, maxP, n + 1).Failure?
    ensures RangeFrom(a, minP, maxP, n).Failure? ==> (RangeFrom(a, minP, maxP, n).error ==
      if Inverted(a, minP, maxP, n) then IndexOutOfRange else RangeFrom(a, minP, maxP, n + 1).error)
  {
    RangeFromStep(a, minP, maxP, n);
    var r := Uniform(|a|, n);
    var s, e := StartAt(a, minP, n), EndAt(a, maxP, n);
    if s != e && Rank(s, r) == Rank(e, r) {
      RankInjective(s, e, r);
    }
  }

  /** `p` holds somewhere in `n..hi`, looked for from `n` upward. */
  predicate SomeFrom(p: nat -> bool, n: nat, hi: nat)
    decreases hi + 1 - n
  {
    n <= hi && (p(n) || SomeFrom(p, n + 1, hi))
  }

  lemma {:induction false} SomeFromIff(p: nat -> bool, n: nat, hi: nat)
    ensures SomeFrom(p, n, hi) <==> exists m :: n <= m <= hi && p(m)
    decreases hi + 1 - n
  {
    if n <= hi {
      SomeFromIff(p, n + 1, hi);
      if exists m :: n <= m <= hi && p(m) {
        var m :| n <= m <= hi && p(m);
        if m > n {
          assert n + 1 <= m <= hi && p(m);
        }
      }
    }
  }

  /** The lengths at which the range enumerator's start comes after its end. */
  function InvertedAt(a: seq<char>, minP: Word, maxP: Word): nat -> bool
    requires Over(a, minP) && Over(a, maxP)
  {
    m => |a| >= 1 && |minP| <= m <= |maxP| && Inverted(a, minP, maxP, m)
  }

  /** One step of `RangeFaults`: whether a positive length faults. */
  lemma {:induction false} FaultsStep(a: seq<char>, minP: Word, maxP: Word, n: nat)
    requires Over(a, minP) && Over(a, maxP) && |minP| <= n && 1 <= n <= |maxP|
    requires RangeFrom(a, minP, maxP, n + 1).Failure? <==> SomeFrom(InvertedAt(a, minP, maxP), n + 1, |maxP|)
    ensures RangeFrom(a, minP, maxP, n).Failure? <==> SomeFrom(InvertedAt(a, minP, maxP), n, |maxP|)
  {
    RangeFaultStep(a, minP, maxP, n);
    assert InvertedAt(a, minP, maxP)(n) == Inverted(a, minP, maxP, n);
  }

  /** One step of `RangeFaults`: the error of a positive length. */
  lemma {:induction false} FaultsErrorStep(a: seq<char>, minP: Word, maxP: Word, n: nat)
    requires Over(a, minP) && Over(a, maxP) && |minP| <= n && 1 <= n <= |maxP|
    requires RangeFrom(a, minP, maxP, n + 1).Failure? ==> RangeFrom(a, minP, maxP, n + 1).error == IndexOutOfRange
    ensures RangeFrom(a, minP, maxP, n).Failure? ==> RangeFrom(a, minP, maxP, n).error == IndexOutOfRange
  {
    RangeFaultStep(a, minP, maxP, n);
  }

  /** The range enumerator faults from `n` on at length zero or at the first inverted length, always out of range. */
  lemma {:induction false} RangeFaults(a: seq<char>, minP: Word, maxP: Word, n: nat)
    requires Over(a, minP) && Over(a, maxP) && |minP| <= n
    ensures RangeFrom(a, minP, maxP, n).Failure? <==>
      n <= |maxP| && (n == 0 || SomeFrom(InvertedAt(a, minP, maxP), n, |maxP|))
    ensures RangeFrom(a, minP, maxP, n).Failure? ==> RangeFrom(a, minP, maxP, n).error == IndexOutOfRange
    decreases |maxP| + 1 - n
  {
    if n == 0 {
    } else if n > |maxP| {
    } else {
      RangeFaults(a, minP, maxP, n + 1);
      FaultsStep(a, minP, maxP, n);
      FaultsErrorStep(a, minP, maxP, n);
    }
  }

  /**
    The range enumerator faults exactly when it starts at length zero or when, at some
    length, its start comes after its end; the fault is always the out-of-range error.
  */
  lemma {:induction false} RangeFault(a: seq<char>, minP: Word, maxP: Word, n: nat)
    requires Over(a, minP) && Over(a, maxP) && |minP| <= n
    ensures RangeFrom(a, minP, maxP, n).Failure? ==> RangeFrom(a, minP, maxP, n).error == IndexOutOfRange
    ensures RangeFrom(a, minP, maxP, n).Failure? <==> (n <= |maxP| &&
      (n == 0 || (|a| >= 1 && exists m :: n <= m <= |maxP| && Inverted(a, minP, maxP, m))))
  {
    RangeFaults(a, minP, maxP, n);
    var p := InvertedAt(a, minP, maxP);
    SomeFromIff(p, n, |maxP|);
    if n >= 1 && exists m :: n <= m <= |maxP| && p(m) {
      var m :| n <= m <= |maxP| && p(m);
      assert |a| >= 1 && Inverted(a, minP, maxP, m);
    }
    if n >= 1 && |a| >= 1 && exists m :: n <= m <= |maxP| && Inverted(a, minP, maxP, m) {
      var m :| n <= m <= |maxP| && Inverted(a, minP, maxP, m);
      assert p(m);
    }
  }

  /** The words the range enumerator yields at one length `n`. */
  lemma {:induction false} RangeMemberHere(a: seq<char>, minP: Word, maxP: Word, n: nat, w: Word)
    requires Unique(a) && |a| >= 1 && Over(a, minP) && Over(a, maxP) && |minP| <= n && 1 <= n <= |maxP|
    requires RangeSpan(Uniform(|a|, n), StartAt(a, minP, n), EndAt(a, maxP, n)).Success?
    ensures var r := Uniform(|a|, n);
      w in SpellAll(Repeat(a, n), r, RangeSpan(r, StartAt(a, minP, n), EndAt(a, maxP, n)).value) <==>
      |w| == n && Over(a, w) && Lower(a, minP, n) < Upper(a, maxP, n) &&
      Lower(a, minP, n) <= Code(a, w) <= Upper(a, maxP, n)
  {
    var r := Uniform(|a|, n);
    var s, e := StartAt(a, minP, n), EndAt(a, maxP, n);
    var here := SpellAll(Repeat(a, n), r, RangeSpan(r, s, e).value);
    if s == e {
      assert here == [];
    } else {
      RepeatFor(a, n);
      RankBound(e, r);
      var lo, hi := Rank(s, r), Rank(e, r) + 1;
      assert lo == Lower(a, minP, n) < Upper(a, maxP, n) == hi - 1;
      assert here == SpellAll(Repeat(a, n), r, Span(r, lo, hi));
      RunMember(Repeat(a, n), r, lo, hi, w);
      if |w| == n {
        SpellableRepeat(a, w);
        if Over(a, w) {
          assert Code(a, w) == WordRank(Repeat(a, n), w);
        }
      }
    }
  }

  /** A positive length that does not fault yields its own run, then the later lengths' words. */
  lemma {:induction false} RangeSplit(a: seq<char>, minP: Word, maxP: Word, n: nat)
    requires Over(a, minP) && Over(a, maxP) && |minP| <= n && 1 <= n <= |maxP|
    requires RangeFrom(a, minP, maxP, n).Success?
    ensures |a| >= 1 && RangeFrom(a, minP, maxP, n + 1).Success?
    ensures var r := Uniform(|a|, n);
      var run := RangeSpan(r, StartAt(a, minP, n), EndAt(a, maxP, n));
      run.Success? && RangeFrom(a, minP, maxP, n).value == SpellAll(Repeat(a, n), r, run.value) + RangeFrom(a, minP, maxP, n + 1).value
  {
    RangeFromStep(a, minP, maxP, n);
  }

  /** A positive length that does not fault leaves the later lengths faultless. */
  lemma {:induction false} RangeNext(a: seq<char>, minP: Word, maxP: Word, n: nat)
    requires Over(a, minP) && Over(a, maxP) && |minP| <= n && 1 <= n <= |maxP|
    requires RangeFrom(a, minP, maxP, n).Success?
    ensures RangeFrom(a, minP, maxP, n + 1).Success?
  {
    RangeSplit(a, minP, maxP, n);
  }

  /** `w` is a word of length `m` or more that the range enumerator reaches at its length. */
  predicate Reached(a: seq<char>, minP: Word, maxP: Word, m: nat, w: Word)
    requires Over(a, minP) && Over(a, maxP)
  {
    m <= |w| <= |maxP| && Over(a, w) && |a| >= 1 && |minP| <= |w| &&
    Lower(a, minP, |w|) < Upper(a, maxP, |w|) && Lower(a, minP, |w|) <= Code(a, w) <= Upper(a, maxP, |w|)
  }

  /** One step of `RangeMember`: a positive length adds the words of its own run. */
  lemma {:induction false} RangeMemberStep(a: seq<char>, minP: Word, maxP: Word, n: nat, w: Word)
    requires Unique(a) && Over(a, minP) && Over(a, maxP) && |minP| <= n && 1 <= n <= |maxP|
    requires RangeFrom(a, minP, maxP, n).Success? && RangeFrom(a, minP, maxP, n + 1).Success?
    requires w in RangeFrom(a, minP, maxP, n + 1).value <==> Reached(a, minP, maxP, n + 1, w)
    ensures w in RangeFrom(a, minP, maxP, n).value <==> Reached(a, minP, maxP, n, w)
  {
    RangeSplit(a, minP, maxP, n);
    RangeMemberHere(a, minP, maxP, n, w);
    var r := Uniform(|a|, n);
    var here := SpellAll(Repeat(a, n), r, RangeSpan(r, StartAt(a, minP, n), EndAt(a, maxP, n)).value);
    var now := Over(a, w) && Lower(a, minP, n) < Upper(a, maxP, n) && Lower(a, minP, n) <= Code(a, w) <= Upper(a, maxP, n);
    ReachedSplit(a, minP, maxP, n, w);
    JoinMember(here, RangeFrom(a, minP, maxP, n + 1).value, w, n, now, Reached(a, minP, maxP, n + 1, w));
  }

  /** A word reached from length `n` on is one of length `n` in that length's run, or one reached from `n + 1` on. */
  lemma {:induction false} ReachedSplit(a: seq<char>, minP: Word, maxP: Word, n: nat, w: Word)
    requires Over(a, minP) && Over(a, maxP) && |minP| <= n && 1 <= n <= |maxP|
    ensures |a| >= 1
    ensures Reached(a, minP, maxP, n + 1, w) ==> |w| > n
    ensures Reached(a, minP, maxP, n, w) <==>
      (|w| == n && Over(a, w) && Lower(a, minP, n) < Upper(a, maxP, n) && Lower(a, minP, n) <= Code(a, w) <= Upper(a, maxP, n)) ||
      Reached(a, minP, maxP, n + 1, w)
  {
    assert maxP[0] in a;
  }

  /**
    A word is in a concatenation whose first part holds the words of length `n` meeting `now`
    and whose second part holds words that are longer, those meeting `later`.
  */
  lemma {:induction false} JoinMember(here: seq<Word>, rest: seq<Word>, w: Word, n: nat, now: bool, later: bool)
    requires w in here <==> |w| == n && now
    requires w in rest <==> later
    requires later ==> |w| > n
    ensures w in here + rest <==> (|w| == n && now) || later
  {
    InAppend(here, rest, w);
  }

  /** Past the upper bound's length nothing is yielded. */
  lemma {:induction false} RangeMemberPast(a: seq<char>, minP: Word, maxP: Word, n: nat, w: Word)
    requires Over(a, minP) && Over(a, maxP) && |minP| <= n && !(1 <= n <= |maxP|)
    requires RangeFrom(a, minP, maxP, n).Success?
    ensures w !in RangeFrom(a, minP, maxP, n).value && !Reached(a, minP, maxP, n, w)
  {
  }

  /**
    Exactly the words over `a` from length `n` up to the upper bound's whose code lies between
    the start and the end of their length inclusively, at the lengths where the start comes
    strictly before the end.
  */
  lemma {:induction false} RangeMember(a: seq<char>, minP: Word, maxP: Word, n: nat, w: Word)
    requires Unique(a) && Over(a, minP) && Over(a, maxP) && |minP| <= n
    requires RangeFrom(a, minP, maxP, n).Success?
    ensures w in RangeFrom(a, minP, maxP, n).value <==> Reached(a, minP, maxP, n, w)
    decreases |maxP| + 1 - n
  {
    if 1 <= n <= |maxP| {
      RangeNext(a, minP, maxP, n);
      RangeMember(a, minP, maxP, n + 1, w);
      RangeMemberStep(a, minP, maxP, n, w);
    } else {
      RangeMemberPast(a, minP, maxP, n, w);
    }
  }

  // ----- how many words the range enumerator yields -----

  /** The number of words one length yields: its inclusive run of codes, or nothing when start and end meet. */
  function RunSize(a: seq<char>, minP: Word, maxP: Word, m: nat): nat
    requires Over(a, minP) && Over(a, maxP) && |a| >= 1 && |minP| <= m <= |maxP|
  {
    if Lower(a, minP, m) < Upper(a, maxP, m) then Upper(a, maxP, m) - Lower(a, minP, m) + 1 else 0
  }

  /** The run sizes of the lengths from `n` up to the upper bound's. */
  function RangeSize(a: seq<char>, minP: Word, maxP: Word, n: nat): nat
    requires Over(a, minP) && Over(a, maxP) && |minP| <= n
    decreases |maxP| + 1 - n
  {
    if n > |maxP| || n == 0 then 0
    else (assert maxP[0] in a; RunSize(a, minP, maxP, n)) + RangeSize(a, minP, maxP, n + 1)
  }

  /** A length that does not fault yields as many vectors as its run size. */
  lemma {:induction false} RunLength(a: seq<char>, minP: Word, maxP: Word, n: nat)
    requires Over(a, minP) && Over(a, maxP) && |a| >= 1 && |minP| <= n <= |maxP|
    requires RangeSpan(Uniform(|a|, n), StartAt(a, minP, n), EndAt(a, maxP, n)).Success?
    ensures |RangeSpan(Uniform(|a|, n), StartAt(a, minP, n), EndAt(a, maxP, n)).value| == RunSize(a, minP, maxP, n)
  {
    var r := Uniform(|a|, n);
    var s, e := StartAt(a, minP, n), EndAt(a, maxP, n);
    if s != e && Rank(s, r) == Rank(e, r) {
      RankInjective(s, e, r);
    }
    RankBound(e, r);
  }

  /** One step of `RangeCount`. */
  lemma {:induction false} RangeCountStep(a: seq<char>, minP: Word, maxP: Word, n: nat)
    requires Over(a, minP) && Over(a, maxP) && |minP| <= n && 1 <= n <= |maxP|
    requires RangeFrom(a, minP, maxP, n).Success? && RangeFrom(a, minP, maxP, n + 1).Success?
    requires |RangeFrom(a, minP, maxP, n + 1).value| == RangeSize(a, minP, maxP, n + 1)
    ensures |RangeFrom(a, minP, maxP, n).value| == RangeSize(a, minP, maxP, n)
  {
    RangeSplit(a, minP, maxP, n);
    RunLength(a, minP, maxP, n);
  }

  /** A range that does not fault yields the sum of its lengths' run sizes. */
  lemma {:induction false} RangeCount(a: seq<char>, minP: Word, maxP: Word, n: nat)
    requires Over(a, minP) && Over(a, maxP) && |minP| <= n
    requires RangeFrom(a, minP, maxP, n).Success?
    ensures |RangeFrom(a, minP, maxP, n).value| == RangeSize(a, minP, maxP, n)
    decreases |maxP| + 1 - n, 1
  {
    if 1 <= n <= |maxP| {
      RangeCountIn(a, minP, maxP, n);
    } else {
      RangeCountPast(a, minP, maxP, n);
    }
  }

  /** `RangeCount` at a length the range still spans. */
  lemma {:induction false} RangeCountIn(a: seq<char>, minP: Word, maxP: Word, n: nat)
    requires Over(a, minP) && Over(a, maxP) && |minP| <= n && 1 <= n <= |maxP|
    requires RangeFrom(a, minP, maxP, n).Success?
    ensures |RangeFrom(a, minP, maxP, n).value| == RangeSize(a, minP, maxP, n)
    decreases |maxP| + 1 - n, 0
  {
    RangeNext(a, minP, maxP, n);
    RangeCount(a, minP, maxP, n + 1);
    RangeCountStep(a, minP, maxP, n);
  }

  lemma {:induction false} RangeCountPast(a: seq<char>, minP: Word, maxP: Word, n: nat)
    requires Over(a, minP) && Over(a, maxP) && |minP| <= n && !(1 <= n <= |maxP|)
    requires RangeFrom(a, minP, maxP, n).Success?
    ensures |RangeFrom(a, minP, maxP, n).value| == RangeSize(a, minP, maxP, n) == 0
  {
  }

  // ----- codes of repeated words -----

  /** The code of a word repeating the `x`-th symbol is the rank of the vector repeating `x`. */
  lemma {:induction false} RepeatCode(a: seq<char>, x: nat, n: nat)
    requires Unique(a) && x < |a|
    ensures Over(a, Repeat(a[x], n)) && Code(a, Repeat(a[x], n)) == Rank(Repeat<nat>(x, n), Uniform(|a|, n))
  {
    var w := Repeat(a[x], n);
    IndexOfUnique(a, x);
    assert Digits(Repeat(a, n), w) == Repeat<nat>(x, n);
    RadicesRepeat(a, n, n);
  }

  /** Repeating a larger digit gives a larger rank. */
  lemma {:induction false} RankRepeatLess(x: nat, y: nat, k: nat, n: nat)
    requires x <= y < k
    ensures Rank(Repeat<nat>(x, n), Uniform(k, n)) <= Rank(Repeat<nat>(y, n), Uniform(k, n))
    ensures x < y && n >= 1 ==> Rank(Repeat<nat>(x, n), Uniform(k, n)) < Rank(Repeat<nat>(y, n), Uniform(k, n))
    decreases n
  {
    if n > 0 {
      assert Repeat<nat>(x, n)[..n - 1] == Repeat<nat>(x, n - 1);
      assert Repeat<nat>(y, n)[..n - 1] == Repeat<nat>(y, n - 1);
      assert Uniform(k, n)[..n - 1] == Uniform(k, n - 1);
      RankRepeatLess(x, y, k, n - 1);
      MulLeq(Rank(Repeat<nat>(x, n - 1), Uniform(k, n - 1)), Rank(Repeat<nat>(y, n - 1), Uniform(k, n - 1)), k);
    }
  }

  /** The first symbol repeated has code 0. */
  lemma {:induction false} RepeatFirst(a: seq<char>, n: nat)
    requires Unique(a) && |a| >= 1
    ensures Code(a, Repeat(a[0], n)) == 0
  {
    RepeatCode(a, 0, n);
    var z: seq<nat> := Repeat<nat>(0, n);
    assert z == Zeros(n);
    RankZeros(Uniform(|a|, n));
  }

  /** The vector repeating the largest digit has the largest rank. */
  lemma {:induction false} RankRepeatTop(k: nat, n: nat)
    requires k >= 1
    ensures Rank(Repeat<nat>(k - 1, n), Uniform(k, n)) == Pow(k, n) - 1
  {
    var r := Uniform(k, n);
    var t: seq<nat> := Repeat<nat>(k - 1, n);
    assert t == Top(r);
    RankTop(r);
    SizeUniform(k, n);
  }

  /** The last symbol repeated has the largest code of its length. */
  lemma {:induction false} RepeatLast(a: seq<char>, n: nat)
    requires Unique(a) && |a| >= 1
    ensures Code(a, Repeat(a[|a| - 1], n)) == Pow(|a|, n) - 1
  {
    RepeatCode(a, |a| - 1, n);
    RankRepeatTop(|a|, n);
  }

  /** A power of `k` with a positive exponent is at least `k`. */
  lemma {:induction false} PowAtLeast(k: nat, n: nat)
    requires k >= 1 && n >= 1
    ensures Pow(k, n) >= k
    decreases n
  {
    if n > 1 {
      PowAtLeast(k, n - 1);
      MulLeq(1, Pow(k, n - 1), k);
    }
  }
}
