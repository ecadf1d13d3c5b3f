/**
  The unbounded enumerator over one shared alphabet: every position draws from the same
  deduplicated alphabet `d`, so the words are counted by powers of `|d|`, ordered by their
  codes and closed by the all-maximum word of the longest length.
*/
module Uniform {
  import opened Odometer
  import opened Alphabet
  import opened Enumeration
  import opened Canonical

  /** What the unbounded enumerator yields over the alphabet `d` for the lengths `lo..hi`. */
  function UniformWords(d: seq<char>, lo: nat, hi: nat): seq<Word>
    requires |d| >= 1 && 1 <= lo
  {
    Words(Repeat(d, hi), lo, hi)
  }

  /** Over the alphabet repeated up to `m`, a word of at most `m` symbols ranks by its code. */
  lemma {:induction false} RankIsCode(d: seq<char>, m: nat, w: Word)
    requires Over(d, w) && |w| <= m
    ensures Spellable(Repeat(d, m), w) && WordRank(Repeat(d, m), w) == Code(d, w)
  {
    assert Digits(Repeat(d, m), w) == Digits(Repeat(d, |w|), w);
    RadicesRepeat(d, m, |w|);
    RadicesRepeat(d, |w|, |w|);
  }

  /** Two words of one length with the same code are the same word. */
  lemma {:induction false} CodeInjective(d: seq<char>, u: Word, w: Word)
    requires Over(d, u) && Over(d, w) && |u| == |w| && Code(d, u) == Code(d, w)
    ensures u == w
  {
    var alphabets := Repeat(d, |w|);
    var r := RadicesOf(alphabets, |w|);
    RadicesRepeat(d, |w|, |w|);
    var du, dw := Digits(alphabets, u), Digits(alphabets, w);
    assert IsDigits(du, r) && IsDigits(dw, r);
    RankInjective(du, dw, r);
    SpellDigits(alphabets, u);
    SpellDigits(alphabets, w);
  }

  /** `u` comes before `w` in the canonical order over `a`: it is shorter, or as long with a smaller code. */
  predicate Before(a: seq<char>, u: Word, w: Word) {
    Over(a, u) && Over(a, w) && (|u| < |w| || (|u| == |w| && Code(a, u) < Code(a, w)))
  }

  /** The words come in canonical order, so none comes twice. */
  predicate InOrder(a: seq<char>, ws: seq<Word>) {
    forall i, j :: 0 <= i < j < |ws| ==> Before(a, ws[i], ws[j])
  }

  /** Words in canonical order are distinct. */
  lemma {:induction false} InOrderUnique(a: seq<char>, ws: seq<Word>)
    requires InOrder(a, ws)
    ensures Unique(ws)
  {
    forall i, j | 0 <= i < j < |ws|
      ensures ws[i] != ws[j]
    {
      assert Before(a, ws[i], ws[j]);
    }
  }

  /** With `k >= 2` symbols the lengths `lo..hi` yield `k^lo + ... + k^hi` words; one symbol yields none. */
  lemma {:induction false} UniformWordsCount(d: seq<char>, lo: nat, hi: nat)
    requires |d| >= 1 && 1 <= lo
    ensures |d| >= 2 ==> |UniformWords(d, lo, hi)| == PowerSum(|d|, lo, hi)
    ensures |d| == 1 ==> UniformWords(d, lo, hi) == []
  {
    UniformCount(d, hi, lo, hi);
  }

  /**
    Every word yielded lies in the length range and is over the alphabet; with at least two
    distinct symbols every such word is yielded.
  */
  lemma {:induction false} UniformWordsMember(d: seq<char>, lo: nat, hi: nat, w: Word)
    requires Unique(d) && |d| >= 1 && 1 <= lo
    ensures w in UniformWords(d, lo, hi) ==> lo <= |w| <= hi && Over(d, w)
    ensures |d| >= 2 ==> (w in UniformWords(d, lo, hi) <==> lo <= |w| <= hi && Over(d, w))
  {
    var alphabets := Repeat(d, hi);
    RepeatFor(d, hi);
    WordsMember(alphabets, lo, hi, w);
    if |d| >= 2 && lo <= |w| <= hi && Over(d, w) {
      var r := RadicesOf(alphabets, |w|);
      RadicesRepeat(d, hi, |w|);
      assert r[|w| - 1] == |d|;
      var v := Digits(alphabets, w);
      assert IsDigits(v, r);
      RankBound(v, r);
    }
  }

  /** No word is yielded twice. */
  lemma {:induction false} UniformWordsUnique(d: seq<char>, lo: nat, hi: nat)
    requires Unique(d) && |d| >= 1 && 1 <= lo
    ensures Unique(UniformWords(d, lo, hi))
  {
    RepeatFor(d, hi);
    WordsUnique(Repeat(d, hi), lo, hi);
  }

  /** The words come in canonical order: by ascending length, and within a length by ascending code. */
  lemma {:induction false} UniformWordsOrdered(d: seq<char>, lo: nat, hi: nat)
    requires Unique(d) && |d| >= 1 && 1 <= lo
    ensures InOrder(d, UniformWords(d, lo, hi))
  {
    var ws := UniformWords(d, lo, hi);
    forall i, j | 0 <= i < j < |ws|
      ensures Before(d, ws[i], ws[j])
    {
      UniformPairOrdered(d, lo, hi, i, j);
    }
  }

  lemma {:induction false} UniformPairOrdered(d: seq<char>, lo: nat, hi: nat, i: nat, j: nat)
    requires Unique(d) && |d| >= 1 && 1 <= lo
    requires i < j < |UniformWords(d, lo, hi)|
    ensures Before(d, UniformWords(d, lo, hi)[i], UniformWords(d, lo, hi)[j])
  {
    var ws := UniformWords(d, lo, hi);
    var alphabets := Repeat(d, hi);
    RepeatFor(d, hi);
    WordsRanked(alphabets, lo, hi, i, j);
    UniformWordsMember(d, lo, hi, ws[i]);
    UniformWordsMember(d, lo, hi, ws[j]);
    RankIsCode(d, hi, ws[i]);
    RankIsCode(d, hi, ws[j]);
  }

  /** A sweep of one length `n` over `k >= 2` symbols yields `k^n` words. */
  lemma {:induction false} LengthCount(d: seq<char>, n: nat)
    requires |d| >= 2 && 1 <= n
    ensures |LengthWords(Repeat(d, n), n)| == Pow(|d|, n) >= 1
  {
    RepeatFor(d, n);
    RadicesRepeat(d, n, n);
    SizeUniform(|d|, n);
    PowAtLeast(|d|, n);
  }

  /** The only word of length `n` with the last code is the last symbol repeated `n` times. */
  lemma {:induction false} TopWord(d: seq<char>, n: nat, w: Word)
    requires Unique(d) && |d| >= 2 && |w| == n && Over(d, w) && Code(d, w) == Pow(|d|, n) - 1
    ensures w == Repeat(d[|d| - 1], n)
  {
    RepeatLast(d, n);
    CodeInjective(d, w, Repeat(d[|d| - 1], n));
  }

  /** A sweep of one length `n` ends at the last symbol repeated `n` times. */
  lemma {:induction false} LengthTop(d: seq<char>, n: nat)
    requires Unique(d) && |d| >= 2 && 1 <= n
    ensures |LengthWords(Repeat(d, n), n)| == Pow(|d|, n) >= 1
    ensures LengthWords(Repeat(d, n), n)[Pow(|d|, n) - 1] == Repeat(d[|d| - 1], n)
  {
    var alphabets := Repeat(d, n);
    LengthCount(d, n);
    RepeatFor(d, n);
    var last := Pow(|d|, n) - 1;
    LengthWordsAt(alphabets, n, last);
    var w := LengthWords(alphabets, n)[last];
    SpellableRepeat(d, w);
    RankIsCode(d, n, w);
    TopWord(d, n, w);
  }

  /**
    With at least two distinct symbols the last word yielded, number `k^lo + ... + k^hi`, is
    the last symbol repeated `hi` times: each sweep ends at the all-maximum vector.
  */
  lemma {:induction false} UniformWordsLast(d: seq<char>, lo: nat, hi: nat)
    requires Unique(d) && |d| >= 2 && 1 <= lo <= hi
    ensures |UniformWords(d, lo, hi)| == PowerSum(|d|, lo, hi) >= 1
    ensures UniformWords(d, lo, hi)[PowerSum(|d|, lo, hi) - 1] == Repeat(d[|d| - 1], hi)
  {
    var alphabets := Repeat(d, hi);
    UniformWordsCount(d, lo, hi);
    UniformWordsCount(d, lo, hi - 1);
    PowerSumLast(|d|, lo, hi);
    LengthTop(d, hi);
    var p, q := Words(alphabets, lo, hi - 1), LengthWords(alphabets, hi);
    AppendAt(p, q, PowerSum(|d|, lo, hi) - 1, Pow(|d|, hi) - 1);
  }

  // ----- the order of the range enumerator -----

  /** Every word has `n` symbols or more. */
  predicate NoShorter(ws: seq<Word>, n: nat) {
    forall i :: 0 <= i < |ws| ==> |ws[i]| >= n
  }

  /** The run of one length comes in ascending code order. */
  lemma {:induction false} RunOrdered(a: seq<char>, minP: Word, maxP: Word, n: nat)
    requires Unique(a) && |a| >= 1 && Over(a, minP) && Over(a, maxP) && |minP| <= n && 1 <= n <= |maxP|
    requires RangeSpan(Uniform(|a|, n), StartAt(a, minP, n), EndAt(a, maxP, n)).Success?
    ensures var r := Uniform(|a|, n);
      var here := SpellAll(Repeat(a, n), r, RangeSpan(r, StartAt(a, minP, n), EndAt(a, maxP, n)).value);
      InOrder(a, here) && AllLength(here, n) && AllOver(a, here)
  {
    var r := Uniform(|a|, n);
    var s, e := StartAt(a, minP, n), EndAt(a, maxP, n);
    var here := SpellAll(Repeat(a, n), r, RangeSpan(r, s, e).value);
    if s != e {
      RepeatFor(a, n);
      RankBound(e, r);
      var lo, hi := Rank(s, r), Rank(e, r) + 1;
      assert here == SpellAll(Repeat(a, n), r, Span(r, lo, hi));
      forall i | 0 <= i < |here|
        ensures |here[i]| == n && Over(a, here[i]) && Code(a, here[i]) == lo + i
      {
        RunAt(Repeat(a, n), r, lo, hi, i);
        SpellableRepeat(a, here[i]);
      }
    }
  }

  /** Two runs in order, the second of longer words, are in order together. */
  lemma {:induction false} OrderedJoin(a: seq<char>, p: seq<Word>, q: seq<Word>, n: nat)
    requires InOrder(a, p) && InOrder(a, q) && AllLength(p, n) && NoShorter(q, n + 1)
    requires AllOver(a, p) && AllOver(a, q)
    ensures InOrder(a, p + q) && NoShorter(p + q, n) && AllOver(a, p + q)
  {
    var w := p + q;
    forall i, j | 0 <= i < j < |w|
      ensures Before(a, w[i], w[j])
    {
      if j < |p| {
        assert Before(a, p[i], p[j]);
      } else if i < |p| {
        AppendAt(p, q, j, j - |p|);
        assert |p[i]| == n && |q[j - |p|]| >= n + 1;
        assert Over(a, p[i]) && Over(a, q[j - |p|]);
      } else {
        AppendAt(p, q, i, i - |p|);
        AppendAt(p, q, j, j - |p|);
        assert Before(a, q[i - |p|], q[j - |p|]);
      }
    }
  }

  /** One step of `RangeOrdered`: a positive length puts its own run before the later lengths. */
  lemma {:induction false} RangeOrderedStep(a: seq<char>, minP: Word, maxP: Word, n: nat)
    requires Unique(a) && Over(a, minP) && Over(a, maxP) && |minP| <= n && 1 <= n <= |maxP|
    requires RangeFrom(a, minP, maxP, n).Success? && RangeFrom(a, minP, maxP, n + 1).Success?
    requires var rest := RangeFrom(a, minP, maxP, n + 1).value;
      InOrder(a, rest) && NoShorter(rest, n + 1) && AllOver(a, rest)
    ensures var ws := RangeFrom(a, minP, maxP, n).value;
      InOrder(a, ws) && NoShorter(ws, n) && AllOver(a, ws)
  {
    RangeSplit(a, minP, maxP, n);
    RunOrdered(a, minP, maxP, n);
    var r := Uniform(|a|, n);
    var here := SpellAll(Repeat(a, n), r, RangeSpan(r, StartAt(a, minP, n), EndAt(a, maxP, n)).value);
    var rest := RangeFrom(a, minP, maxP, n + 1).value;
    OrderedJoin(a, here, rest, n);
  }

  /**
    The range enumerator yields its words in canonical order, so each at most once; from
    length `n` on every word has `n` symbols or more.
  */
  lemma {:induction false} RangeOrdered(a: seq<char>, minP: Word, maxP: Word, n: nat)
    requires Unique(a) && Over(a, minP) && Over(a, maxP) && |minP| <= n
    requires RangeFrom(a, minP, maxP, n).Success?
    ensures var ws := RangeFrom(a, minP, maxP, n).value;
      InOrder(a, ws) && NoShorter(ws, n) && AllOver(a, ws)
    decreases |maxP| + 1 - n
  {
    if 1 <= n <= |maxP| {
      RangeNext(a, minP, maxP, n);
      RangeOrdered(a, minP, maxP, n + 1);
      RangeOrderedStep(a, minP, maxP, n);
    }
  }
}
