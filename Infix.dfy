/**
  The substring dictionaries.  The single-alphabet one pushes the substring through every
  offset of every length, with a left part and a right part drawn independently from the
  unbounded enumerator; the per-position one filters its sweep by substring search.
*/
module Infix {
  import opened Odometer
  import opened Alphabet
  import opened Enumeration
  import opened Canonical

  lemma {:induction false} RepeatsLeft<T>(p: seq<T>, q: seq<T>)
    requires !Unique(p)
    ensures !Unique(p + q)
  {
    var i, j :| 0 <= i < j < |p| && p[i] == p[j];
    assert (p + q)[i] == (p + q)[j];
  }

  lemma {:induction false} RepeatsRight<T>(p: seq<T>, q: seq<T>)
    requires !Unique(q)
    ensures !Unique(p + q)
  {
    var i, j :| 0 <= i < j < |q| && q[i] == q[j];
    assert (p + q)[|p| + i] == (p + q)[|p| + j];
  }

  lemma {:induction false} TwiceNotUnique<T>(p: seq<T>, q: seq<T>, x: T)
    requires x in p && x in q
    ensures !Unique(p + q)
  {
    var i :| 0 <= i < |p| && p[i] == x;
    var j :| 0 <= j < |q| && q[j] == x;
    assert (p + q)[i] == x == (p + q)[|p| + j];
  }

  // ----- the loops around the substring -----

  /** `l + sub + r` for every word `r` of `rs`, in order. */
  function Stuck(l: Word, sub: Word, rs: seq<Word>): (ws: seq<Word>)
    ensures |ws| == |rs|
  {
    seq(|rs|, j requires 0 <= j < |rs| => l + sub + rs[j])
  }

  /** `l + sub + r` for every `l` of `ls` (the outer loop) and every `r` of `rs` (the inner loop). */
  function Around(ls: seq<Word>, sub: Word, rs: seq<Word>): seq<Word>
    decreases |ls|
  {
    if |ls| == 0 then [] else Around(ls[..|ls| - 1], sub, rs) + Stuck(ls[|ls| - 1], sub, rs)
  }

  /** The loops around the substring try every pair of parts. */
  lemma {:induction false} AroundCount(ls: seq<Word>, sub: Word, rs: seq<Word>)
    ensures |Around(ls, sub, rs)| == |ls| * |rs|
    decreases |ls|
  {
    if |ls| > 0 {
      AroundCount(ls[..|ls| - 1], sub, rs);
      assert |ls| * |rs| == (|ls| - 1) * |rs| + |rs|;
    }
  }

  lemma {:induction false} MulLess(i: nat, j: nat, n: nat, c: nat)
    requires i < n && j < c
    ensures i * c + j < n * c
  {
    assert (i + 1) * c <= n * c;
  }

  /** The pair of the `i`-th left part and the `j`-th right part comes out at `i * |rs| + j`. */
  lemma {:induction false} AroundAt(ls: seq<Word>, sub: Word, rs: seq<Word>, i: nat, j: nat)
    requires i < |ls| && j < |rs|
    ensures i * |rs| + j < |Around(ls, sub, rs)| && Around(ls, sub, rs)[i * |rs| + j] == ls[i] + sub + rs[j]
    decreases |ls|
  {
    var p := ls[..|ls| - 1];
    AroundCount(ls, sub, rs);
    AroundCount(p, sub, rs);
    if i < |p| {
      AroundAt(p, sub, rs, i, j);
      MulLess(i, j, |p|, |rs|);
      assert p[i] == ls[i];
    } else {
      AppendAt(Around(p, sub, rs), Stuck(ls[i], sub, rs), i * |rs| + j, j);
    }
  }

  /** `w` splits at `m` into a word of `ls`, the substring and a word of `rs`. */
  predicate SplitsAt(w: Word, ls: seq<Word>, sub: Word, rs: seq<Word>, m: nat) {
    m + |sub| <= |w| && w[..m] in ls && w[m..m + |sub|] == sub && w[m + |sub|..] in rs
  }

  lemma {:induction false} StuckMember(l: Word, sub: Word, rs: seq<Word>, w: Word)
    ensures w in Stuck(l, sub, rs) <==> SplitsAt(w, [l], sub, rs, |l|)
  {
    var m := |l|;
    if w in Stuck(l, sub, rs) {
      var j :| 0 <= j < |rs| && Stuck(l, sub, rs)[j] == w;
      assert w == l + sub + rs[j];
      assert w[..m] == l && w[m..m + |sub|] == sub && w[m + |sub|..] == rs[j];
    }
    if SplitsAt(w, [l], sub, rs, m) {
      var j :| 0 <= j < |rs| && rs[j] == w[m + |sub|..];
      assert w == w[..m] + w[m..m + |sub|] + w[m + |sub|..];
      assert Stuck(l, sub, rs)[j] == w;
    }
  }

  lemma {:induction false} AroundMemberStep(ls: seq<Word>, sub: Word, rs: seq<Word>, m: nat, w: Word)
    requires |ls| >= 1 && AllLength(ls, m)
    requires w in Around(ls[..|ls| - 1], sub, rs) <==> SplitsAt(w, ls[..|ls| - 1], sub, rs, m)
    ensures w in Around(ls, sub, rs) <==> SplitsAt(w, ls, sub, rs, m)
  {
    var p, l := ls[..|ls| - 1], ls[|ls| - 1];
    InAppend(Around(p, sub, rs), Stuck(l, sub, rs), w);
    StuckMember(l, sub, rs, w);
    assert ls == p + [l];
    if m <= |w| {
      InAppend(p, [l], w[..m]);
    }
  }

  /** When the left parts all have `m` symbols, a word comes out of the loops exactly when it splits at `m`. */
  lemma {:induction false} AroundMember(ls: seq<Word>, sub: Word, rs: seq<Word>, m: nat, w: Word)
    requires AllLength(ls, m)
    ensures w in Around(ls, sub, rs) <==> SplitsAt(w, ls, sub, rs, m)
    decreases |ls|
  {
    if |ls| > 0 {
      var p := ls[..|ls| - 1];
      assert AllLength(p, m) by {
        forall i | 0 <= i < |p|
          ensures |p[i]| == m
        {
          assert p[i] == ls[i];
        }
      }
      AroundMember(p, sub, rs, m, w);
      AroundMemberStep(ls, sub, rs, m, w);
    }
  }

  /** A word over `d` cut into three pieces has every piece over `d`, and conversely. */
  lemma {:induction false} OverParts(d: seq<char>, w: Word, m: nat, n: nat)
    requires m <= n <= |w|
    ensures Over(d, w) <==> Over(d, w[..m]) && Over(d, w[m..n]) && Over(d, w[n..])
  {
    if Over(d, w[..m]) && Over(d, w[m..n]) && Over(d, w[n..]) {
      forall i | 0 <= i < |w|
        ensures w[i] in d
      {
        if i < m {
          assert w[..m][i] == w[i];
        } else if i < n {
          assert w[m..n][i - m] == w[i];
        } else {
          assert w[n..][i - n] == w[i];
        }
      }
    }
  }

  // ----- the side parts -----

  /** The one-symbol words over `d`, in its order. */
  function Singles(d: seq<char>): (ws: seq<Word>)
    ensures |ws| == |d|
  {
    seq(|d|, j requires 0 <= j < |d| => [d[j]])
  }

  /** Every word of `n` symbols over `d`, the last position running fastest. */
  function Layer(d: seq<char>, n: nat): seq<Word>
    decreases n
  {
    if n == 0 then [[]] else Around(Layer(d, n - 1), [], Singles(d))
  }

  /**
    The words of exactly `n` symbols that the unbounded enumerator yields for the deduplicated
    alphabet `d`: none for `n == 0`, none for a one-symbol alphabet, every word otherwise.
  */
  function Side(d: seq<char>, n: nat): seq<Word>
    requires |d| >= 1
  {
    if n == 0 || |d| == 1 then [] else Layer(d, n)
  }

  lemma {:induction false} SinglesMember(d: seq<char>, x: Word)
    ensures x in Singles(d) <==> |x| == 1 && x[0] in d
  {
    if |x| == 1 && x[0] in d {
      var j :| 0 <= j < |d| && d[j] == x[0];
      assert Singles(d)[j] == x;
    }
  }

  lemma {:induction false} LayerLengthStep(d: seq<char>, n: nat)
    requires n >= 1 && AllLength(Layer(d, n - 1), n - 1)
    ensures AllLength(Layer(d, n), n)
  {
    forall i | 0 <= i < |Layer(d, n)|
      ensures |Layer(d, n)[i]| == n
    {
      var w := Layer(d, n)[i];
      AroundMember(Layer(d, n - 1), [], Singles(d), n - 1, w);
      SinglesMember(d, w[n - 1..]);
    }
  }

  /** Every word of the layer has `n` symbols. */
  lemma {:induction false} LayerLength(d: seq<char>, n: nat)
    ensures AllLength(Layer(d, n), n)
    decreases n
  {
    if n >= 1 {
      LayerLength(d, n - 1);
      LayerLengthStep(d, n);
    }
  }

  lemma {:induction false} LayerMemberStep(d: seq<char>, n: nat, w: Word)
    requires n >= 1 && AllLength(Layer(d, n - 1), n - 1)
    requires |w| >= n - 1 ==> (w[..n - 1] in Layer(d, n - 1) <==> Over(d, w[..n - 1]))
    ensures w in Layer(d, n) <==> |w| == n && Over(d, w)
  {
    AroundMember(Layer(d, n - 1), [], Singles(d), n - 1, w);
    if |w| >= n - 1 {
      SinglesMember(d, w[n - 1..]);
      OverParts(d, w, n - 1, n - 1);
      if |w| == n {
        assert w[n - 1..][0] == w[n - 1];
      }
    }
  }

  /** The layer holds exactly the words of `n` symbols over `d`. */
  lemma {:induction false} LayerMember(d: seq<char>, n: nat, w: Word)
    ensures w in Layer(d, n) <==> |w| == n && Over(d, w)
    decreases n
  {
    if n == 0 {
      assert w in [[]] <==> w == [];
    } else {
      LayerLength(d, n - 1);
      if |w| >= n - 1 {
        LayerMember(d, n - 1, w[..n - 1]);
      }
      LayerMemberStep(d, n, w);
    }
  }

  /** The layer has `k^n` words. */
  lemma {:induction false} LayerCount(d: seq<char>, n: nat)
    ensures |Layer(d, n)| == Pow(|d|, n)
    decreases n
  {
    if n >= 1 {
      LayerCount(d, n - 1);
      AroundCount(Layer(d, n - 1), [], Singles(d));
    }
  }

  /** Spelling one more digit over a repeated alphabet appends its symbol. */
  lemma {:induction false} SpellSnoc(d: seq<char>, n: nat, v: seq<nat>, x: nat)
    requires n >= 1 && |v| == n - 1 && x < |d| && forall i :: 0 <= i < |v| ==> v[i] < |d|
    ensures Fits(Repeat(d, n - 1), v) && Fits(Repeat(d, n), v + [x])
    ensures Spell(Repeat(d, n), v + [x]) == Spell(Repeat(d, n - 1), v) + [d[x]]
  {
  }

  /** Peeling the last radix of a uniform odometer. */
  lemma {:induction false} UnrankSnoc(k: nat, n: nat, m: nat)
    requires n >= 1 && m < Pow(k, n)
    ensures k >= 1 && m / k < Pow(k, n - 1) && m == (m / k) * k + m % k
    ensures m < Size(Uniform(k, n)) && m / k < Size(Uniform(k, n - 1))
    ensures Unrank(m, Uniform(k, n)) == Unrank(m / k, Uniform(k, n - 1)) + [m % k]
  {
    DivLess(m, k, Pow(k, n - 1));
    SizeUniform(k, n);
    SizeUniform(k, n - 1);
    assert Uniform(k, n)[..n - 1] == Uniform(k, n - 1);
  }

  lemma {:induction false} LayerAtStep(d: seq<char>, n: nat, m: nat)
    requires n >= 1 && m < Pow(|d|, n)
    requires |d| >= 1 && m / |d| < Pow(|d|, n - 1) && m / |d| < Size(Uniform(|d|, n - 1))
    requires m / |d| < |Layer(d, n - 1)|
    requires Layer(d, n - 1)[m / |d|] == Spell(Repeat(d, n - 1), Unrank(m / |d|, Uniform(|d|, n - 1)))
    ensures m < Size(Uniform(|d|, n)) && m < |Layer(d, n)|
    ensures Layer(d, n)[m] == Spell(Repeat(d, n), Unrank(m, Uniform(|d|, n)))
  {
    var k, q, j := |d|, m / |d|, m % |d|;
    UnrankSnoc(k, n, m);
    AroundAt(Layer(d, n - 1), [], Singles(d), q, j);
    SpellSnoc(d, n, Unrank(q, Uniform(k, n - 1)), j);
  }

  /** Word `m` of the layer spells the odometer vector of rank `m`. */
  lemma {:induction false} LayerAt(d: seq<char>, n: nat, m: nat)
    requires |d| >= 1 && m < Pow(|d|, n)
    ensures m < Size(Uniform(|d|, n)) && m < |Layer(d, n)|
    ensures Layer(d, n)[m] == Spell(Repeat(d, n), Unrank(m, Uniform(|d|, n)))
    decreases n
  {
    SizeUniform(|d|, n);
    LayerCount(d, n);
    if n >= 1 {
      UnrankSnoc(|d|, n, m);
      LayerCount(d, n - 1);
      LayerAt(d, n - 1, m / |d|);
      LayerAtStep(d, n, m);
    }
  }

  /** With at least two symbols, word `m` of the unbounded enumerator's length `n` is word `m` of the layer. */
  lemma {:induction false} SideWordsAt(d: seq<char>, n: nat, m: nat)
    requires |d| >= 2 && n >= 1 && m < Pow(|d|, n)
    ensures m < |LengthWords(Repeat(d, n), n)| && m < |Layer(d, n)|
    ensures LengthWords(Repeat(d, n), n)[m] == Layer(d, n)[m]
  {
    var r := RadicesOf(Repeat(d, n), n);
    RadicesRepeat(d, n, n);
    SizeUniform(|d|, n);
    LayerAt(d, n, m);
    assert Span(r, 0, SweepCount(r))[m] == Unrank(m, r);
  }

  /** The side parts are what the unbounded enumerator yields for the lengths `n..n`. */
  lemma {:induction false} SideWords(d: seq<char>, n: nat)
    requires |d| >= 1 && n >= 1
    ensures Side(d, n) == Words(Repeat(d, n), n, n)
  {
    var alphabets := Repeat(d, n);
    var r := RadicesOf(alphabets, n);
    RadicesRepeat(d, n, n);
    SizeUniform(|d|, n);
    assert Words(alphabets, n, n) == LengthWords(alphabets, n);
    assert r[n - 1] == |d|;
    assert |LengthWords(alphabets, n)| == SweepCount(r);
    if |d| >= 2 {
      LayerCount(d, n);
      forall m | 0 <= m < Pow(|d|, n)
        ensures LengthWords(alphabets, n)[m] == Layer(d, n)[m]
      {
        SideWordsAt(d, n, m);
      }
      assert LengthWords(alphabets, n) == Layer(d, n);
    } else {
      PowOne(n);
    }
  }

  /** The side parts are the words of their length over the alphabet; a one-symbol alphabet yields none. */
  lemma {:induction false} SideMember(d: seq<char>, n: nat, w: Word)
    requires |d| >= 1
    ensures w in Side(d, n) ==> |w| == n && Over(d, w)
    ensures |d| >= 2 ==> (w in Side(d, n) <==> n >= 1 && |w| == n && Over(d, w))
    ensures |d| == 1 ==> Side(d, n) == []
  {
    LayerMember(d, n, w);
  }

  /** Every side part has its length and is over the alphabet. */
  lemma {:induction false} SideShape(d: seq<char>, n: nat)
    requires |d| >= 1
    ensures AllLength(Side(d, n), n) && AllOver(d, Side(d, n))
  {
    forall i | 0 <= i < |Side(d, n)|
      ensures |Side(d, n)[i]| == n && Over(d, Side(d, n)[i])
    {
      SideMember(d, n, Side(d, n)[i]);
    }
  }

  /** With at least two symbols there are `k^n` side parts of length `n >= 1`. */
  lemma {:induction false} SideCount(d: seq<char>, n: nat)
    requires |d| >= 2
    ensures |Side(d, n)| == if n == 0 then 0 else Pow(|d|, n)
  {
    LayerCount(d, n);
  }

  // ----- one offset, over an abstract table of parts -----

  /**
    What offset `o` yields, given in `parts[n]` the candidates for a part of `n` symbols on either
    side of the substring, for every `n` up to the room `|parts| - 1` the substring leaves: each
    left part of `o` symbols (the outer loop), the substring and each right part of the remaining
    symbols (the inner loop).
  */
  function Place(sub: Word, parts: seq<seq<Word>>, o: nat): seq<Word>
    requires o < |parts|
  {
    Around(parts[o], sub, parts[|parts| - 1 - o])
  }

  /** The offsets `0..m-1`, in order. */
  function Placements(sub: Word, parts: seq<seq<Word>>, m: nat): seq<Word>
    requires m <= |parts|
    decreases m
  {
    if m == 0 then [] else Placements(sub, parts, m - 1) + Place(sub, parts, m - 1)
  }

  /** One more offset adds what that offset yields. */
  lemma {:induction false} PlacementsStep(sub: Word, parts: seq<seq<Word>>, m: nat)
    requires m < |parts|
    ensures Placements(sub, parts, m + 1) == Placements(sub, parts, m) + Place(sub, parts, m)
  {
  }

  /** Every part of length `n` has `n` symbols over `d`. */
  predicate Shaped(d: seq<char>, parts: seq<seq<Word>>) {
    forall n :: 0 <= n < |parts| ==> AllLength(parts[n], n) && AllOver(d, parts[n])
  }

  /** Every word over `d` of a length `n` in the table is among the parts of length `n`. */
  ghost predicate Complete(d: seq<char>, parts: seq<seq<Word>>) {
    forall n, w :: 0 <= n < |parts| && |w| == n && Over(d, w) ==> w in parts[n]
  }

  /** There are `k^n` parts of each length `n`. */
  predicate Counted(k: nat, parts: seq<seq<Word>>) {
    forall n :: 0 <= n < |parts| ==> |parts[n]| == Pow(k, n)
  }

  /** The only part is the empty one. */
  predicate OnlyEmpty(parts: seq<seq<Word>>) {
    |parts| >= 1 && parts[0] == [[]] && forall n :: 1 <= n < |parts| ==> parts[n] == []
  }

  /** `w` has length `L`, is over `d` and holds the substring at offset `o`. */
  predicate PlacedAt(d: seq<char>, sub: Word, L: nat, o: nat, w: Word) {
    |w| == L && Over(d, w) && OccursAt(w, sub, o)
  }

  /** A word splitting at `o` into parts over `d` around a substring over `d` is placed at `o`. */
  lemma {:induction false} SplitPlaced(d: seq<char>, ls: seq<Word>, sub: Word, rs: seq<Word>, o: nat, q: nat, w: Word)
    requires AllLength(ls, o) && AllOver(d, ls) && AllLength(rs, q) && AllOver(d, rs) && Over(d, sub)
    requires SplitsAt(w, ls, sub, rs, o)
    ensures PlacedAt(d, sub, o + |sub| + q, o, w)
  {
    var i :| 0 <= i < |ls| && ls[i] == w[..o];
    var j :| 0 <= j < |rs| && rs[j] == w[o + |sub|..];
    OverParts(d, w, o, o + |sub|);
  }

  /** A word placed at `o` splits at `o` into parts of the side lengths. */
  lemma {:induction false} PlacedSplits(d: seq<char>, sub: Word, L: nat, o: nat, w: Word)
    requires PlacedAt(d, sub, L, o, w)
    ensures |w[..o]| == o && |w[o + |sub|..]| == L - |sub| - o
    ensures Over(d, w[..o]) && Over(d, w[o + |sub|..]) && w[o..o + |sub|] == sub
  {
    OverParts(d, w, o, o + |sub|);
  }

  lemma {:induction false} ShapedAt(d: seq<char>, parts: seq<seq<Word>>, n: nat)
    requires Shaped(d, parts) && n < |parts|
    ensures AllLength(parts[n], n) && AllOver(d, parts[n])
  {
  }

  lemma {:induction false} CompleteAt(d: seq<char>, parts: seq<seq<Word>>, n: nat, w: Word)
    requires Complete(d, parts) && n < |parts| && |w| == n && Over(d, w)
    ensures w in parts[n]
  {
  }

  /** Everything offset `o` yields has the full length, is over the alphabet and holds the substring at `o`. */
  lemma {:induction false} PlaceShape(d: seq<char>, sub: Word, parts: seq<seq<Word>>, o: nat, w: Word)
    requires Shaped(d, parts) && Over(d, sub) && o < |parts|
    requires w in Place(sub, parts, o)
    ensures PlacedAt(d, sub, |parts| - 1 + |sub|, o, w)
  {
    var q := |parts| - 1 - o;
    ShapedAt(d, parts, o);
    ShapedAt(d, parts, q);
    AroundMember(parts[o], sub, parts[q], o, w);
    SplitPlaced(d, parts[o], sub, parts[q], o, q, w);
  }

  /** With a complete table, every word placed at `o` comes out of offset `o`. */
  lemma {:induction false} PlaceComplete(d: seq<char>, sub: Word, parts: seq<seq<Word>>, o: nat, w: Word)
    requires Shaped(d, parts) && Complete(d, parts) && o < |parts|
    requires PlacedAt(d, sub, |parts| - 1 + |sub|, o, w)
    ensures w in Place(sub, parts, o)
  {
    var q := |parts| - 1 - o;
    PlacedSplits(d, sub, |parts| - 1 + |sub|, o, w);
    ShapedAt(d, parts, o);
    CompleteAt(d, parts, o, w[..o]);
    CompleteAt(d, parts, q, w[o + |sub|..]);
    AroundMember(parts[o], sub, parts[q], o, w);
  }

  lemma {:induction false} PowAdd(k: nat, x: nat, y: nat)
    ensures Pow(k, x + y) == Pow(k, x) * Pow(k, y)
    decreases y
  {
    if y > 0 {
      PowAdd(k, x, y - 1);
      assert Pow(k, x) * Pow(k, y) == Pow(k, x) * Pow(k, y - 1) * k;
    }
  }

  /** With `k^n` parts of each length, each offset yields `k^rest` words, `rest` being the room the substring leaves. */
  lemma {:induction false} PlaceCount(k: nat, sub: Word, parts: seq<seq<Word>>, o: nat)
    requires Counted(k, parts) && o < |parts|
    ensures |Place(sub, parts, o)| == Pow(k, |parts| - 1)
  {
    var q := |parts| - 1 - o;
    AroundCount(parts[o], sub, parts[q]);
    PowAdd(k, o, q);
  }

  /** With the empty part alone, only the substring itself comes out, at the offset that leaves no room. */
  lemma {:induction false} PlaceAlone(sub: Word, parts: seq<seq<Word>>, o: nat)
    requires OnlyEmpty(parts) && o < |parts|
    ensures Place(sub, parts, o) == if |parts| == 1 then [sub] else []
  {
    var q := |parts| - 1 - o;
    if |parts| == 1 {
      assert Stuck([], sub, [[]])[0] == sub;
      assert Around([[]], sub, [[]]) == [] + Stuck([], sub, [[]]);
    } else if o >= 1 {
      AroundCount(parts[o], sub, parts[q]);
    } else {
      AroundCount(parts[o], sub, parts[q]);
    }
  }

  lemma {:induction false} PlacementsMemberStep(sub: Word, parts: seq<seq<Word>>, m: nat, w: Word)
    requires 1 <= m <= |parts|
    requires w in Placements(sub, parts, m - 1) <==> exists o :: 0 <= o < m - 1 && w in Place(sub, parts, o)
    ensures w in Placements(sub, parts, m) <==> exists o :: 0 <= o < m && w in Place(sub, parts, o)
  {
    InAppend(Placements(sub, parts, m - 1), Place(sub, parts, m - 1), w);
  }

  /** A word comes out of the first `m` offsets exactly when it comes out of one of them. */
  lemma {:induction false} PlacementsMember(sub: Word, parts: seq<seq<Word>>, m: nat, w: Word)
    requires m <= |parts|
    ensures w in Placements(sub, parts, m) <==> exists o :: 0 <= o < m && w in Place(sub, parts, o)
    decreases m
  {
    if m > 0 {
      PlacementsMember(sub, parts, m - 1, w);
      PlacementsMemberStep(sub, parts, m, w);
    }
  }

  /** With `k^n` parts of each length, the first `m` offsets yield `m * k^rest` words. */
  lemma {:induction false} PlacementsCount(k: nat, sub: Word, parts: seq<seq<Word>>, m: nat)
    requires Counted(k, parts) && 1 <= |parts| && m <= |parts|
    ensures |Placements(sub, parts, m)| == m * Pow(k, |parts| - 1)
    decreases m
  {
    if m > 0 {
      PlacementsCount(k, sub, parts, m - 1);
      PlaceCount(k, sub, parts, m - 1);
      assert m * Pow(k, |parts| - 1) == (m - 1) * Pow(k, |parts| - 1) + Pow(k, |parts| - 1);
    }
  }

  /** With the empty part alone, the offsets yield the substring alone, when it fills the length. */
  lemma {:induction false} PlacementsAlone(sub: Word, parts: seq<seq<Word>>, m: nat)
    requires OnlyEmpty(parts) && m <= |parts|
    ensures Placements(sub, parts, m) == if |parts| == 1 && m == 1 then [sub] else []
    decreases m
  {
    if m > 0 {
      PlacementsAlone(sub, parts, m - 1);
      PlaceAlone(sub, parts, m - 1);
      if |parts| == 1 {
        assert Placements(sub, parts, m) == [] + [sub];
      } else {
        assert Placements(sub, parts, m) == [] + [];
      }
    }
  }

  /** All offsets of one length yield words of that length over the alphabet holding the substring. */
  lemma {:induction false} PlacementsShape(d: seq<char>, sub: Word, parts: seq<seq<Word>>, m: nat, w: Word)
    requires Shaped(d, parts) && Over(d, sub) && 1 <= m == |parts|
    requires w in Placements(sub, parts, m)
    ensures |w| == m - 1 + |sub| && Over(d, w) && Contains(w, sub)
  {
    PlacementsMember(sub, parts, m, w);
    ContainsIff(w, sub);
    var o :| 0 <= o < m && w in Place(sub, parts, o);
    PlaceShape(d, sub, parts, o, w);
  }

  /** With a complete table the offsets of one length yield every word of that length over the alphabet holding the substring. */
  lemma {:induction false} PlacementsComplete(d: seq<char>, sub: Word, parts: seq<seq<Word>>, m: nat, w: Word)
    requires Shaped(d, parts) && Complete(d, parts) && 1 <= m == |parts|
    requires |w| == m - 1 + |sub| && Over(d, w) && Contains(w, sub)
    ensures w in Placements(sub, parts, m)
  {
    ContainsIff(w, sub);
    var o :| OccursAt(w, sub, o);
    PlaceComplete(d, sub, parts, o, w);
    PlacementsMember(sub, parts, m, w);
  }

  /** The substring written twice comes out at offset 0, as the substring followed by a right part. */
  lemma {:induction false} DoubledFirst(sub: Word, parts: seq<seq<Word>>)
    requires |parts| == |sub| + 1 && parts[0] == [[]] && sub in parts[|sub|]
    ensures sub + sub in Place(sub, parts, 0)
  {
    var w := sub + sub;
    assert w[..0] == [] && w[0..|sub|] == sub && w[|sub|..] == sub;
    AroundMember([[]], sub, parts[|sub|], 0, w);
  }

  /** The substring written twice comes out at the last offset, as a left part followed by the substring. */
  lemma {:induction false} DoubledLast(sub: Word, parts: seq<seq<Word>>)
    requires |parts| == |sub| + 1 && parts[0] == [[]] && sub in parts[|sub|] && AllLength(parts[|sub|], |sub|)
    ensures sub + sub in Place(sub, parts, |sub|)
  {
    var w := sub + sub;
    assert w[..|sub|] == sub && w[|sub|..|sub| + |sub|] == sub && w[|sub| + |sub|..] == [];
    AroundMember(parts[|sub|], sub, [[]], |sub|, w);
  }

  /** The substring written twice comes out both at offset 0 and, for a non-empty substring, at the last offset. */
  lemma {:induction false} PlacementsTwice(sub: Word, parts: seq<seq<Word>>)
    requires |sub| >= 1 && |parts| == |sub| + 1 && parts[0] == [[]]
    requires sub in parts[|sub|] && AllLength(parts[|sub|], |sub|)
    ensures !Unique(Placements(sub, parts, |sub| + 1))
  {
    DoubledFirst(sub, parts);
    DoubledLast(sub, parts);
    PlacementsMember(sub, parts, |sub|, sub + sub);
    TwiceNotUnique(Placements(sub, parts, |sub|), Place(sub, parts, |sub|), sub + sub);
  }

  // ----- one length, with the unbounded enumerator's side parts -----

  /** The candidates for a part of `n` symbols: the empty word alone for `n == 0`, the side parts otherwise. */
  function Part(d: seq<char>, n: nat): seq<Word>
    requires |d| >= 1
  {
    if n == 0 then [[]] else Side(d, n)
  }

  /** The parts of lengths `0..rest`. */
  function PartTable(d: seq<char>, rest: nat): (t: seq<seq<Word>>)
    requires |d| >= 1
    ensures |t| == rest + 1
    decreases rest
  {
    if rest == 0 then [Part(d, 0)] else PartTable(d, rest - 1) + [Part(d, rest)]
  }

  /** Entry `n` of the table holds the parts of length `n`. */
  lemma {:induction false} PartTableAt(d: seq<char>, rest: nat, n: nat)
    requires |d| >= 1 && n <= rest
    ensures PartTable(d, rest)[n] == Part(d, n)
    decreases rest
  {
    if n < rest {
      PartTableAt(d, rest - 1, n);
    }
  }

  /** Every part of the table has its length and is over the alphabet. */
  lemma {:induction false} PartTableShaped(d: seq<char>, rest: nat)
    requires |d| >= 1
    ensures Shaped(d, PartTable(d, rest))
  {
    var t := PartTable(d, rest);
    forall n | 0 <= n < |t|
      ensures AllLength(t[n], n) && AllOver(d, t[n])
    {
      PartTableAt(d, rest, n);
      SideShape(d, n);
    }
  }

  /** With at least two symbols the table holds every word of each length `0..rest` over the alphabet. */
  lemma {:induction false} PartTableComplete(d: seq<char>, rest: nat)
    requires |d| >= 2
    ensures Complete(d, PartTable(d, rest))
  {
    var t := PartTable(d, rest);
    forall n, w | 0 <= n < |t| && |w| == n && Over(d, w)
      ensures w in t[n]
    {
      PartTableAt(d, rest, n);
      SideMember(d, n, w);
    }
  }

  /** With at least two symbols the table has `k^n` parts of each length `n`. */
  lemma {:induction false} PartTableCounted(d: seq<char>, rest: nat)
    requires |d| >= 2
    ensures Counted(|d|, PartTable(d, rest))
  {
    var t := PartTable(d, rest);
    forall n | 0 <= n < |t|
      ensures |t[n]| == Pow(|d|, n)
    {
      PartTableAt(d, rest, n);
      SideCount(d, n);
    }
  }

  /** A one-symbol alphabet leaves the empty part alone. */
  lemma {:induction false} PartTableEmpty(d: seq<char>, rest: nat)
    requires |d| == 1
    ensures OnlyEmpty(PartTable(d, rest))
  {
    var t := PartTable(d, rest);
    forall n | 0 <= n < |t|
      ensures t[n] == if n == 0 then [[]] else []
    {
      PartTableAt(d, rest, n);
    }
  }

  /**
    The three loops the enumerator runs at offset `o` when the substring leaves room `rest`: at
    offset 0 the substring alone (when it fills the length) and the substring followed by each
    right part; then each left part, the substring and each right part; at the last offset each
    left part followed by the substring.
  */
  function Loops(d: seq<char>, sub: Word, rest: nat, o: nat): seq<Word>
    requires |d| >= 1 && o <= rest
  {
    (if o == 0 then (if rest == 0 then [sub] else []) + Around([[]], sub, Side(d, rest)) else [])
    + Around(Side(d, o), sub, Side(d, rest - o))
    + (if o == rest then Around(Side(d, rest), sub, [[]]) else [])
  }

  /** The three loops, each run on its own, joined in order. */
  lemma {:induction false} LoopsJoin(d: seq<char>, sub: Word, rest: nat, o: nat, first: seq<Word>, mid: seq<Word>, last: seq<Word>)
    requires |d| >= 1 && o <= rest
    requires first == if o == 0 then (if rest == 0 then [sub] else []) + Around([[]], sub, Side(d, rest)) else []
    requires mid == Around(Side(d, o), sub, Side(d, rest - o))
    requires last == if o == rest then Around(Side(d, rest), sub, [[]]) else []
    ensures first + mid + last == Loops(d, sub, rest, o)
  {
  }

  lemma {:induction false} AroundNone(ls: seq<Word>, sub: Word, rs: seq<Word>)
    requires ls == [] || rs == []
    ensures Around(ls, sub, rs) == []
  {
    AroundCount(ls, sub, rs);
  }

  lemma {:induction false} AroundAlone(sub: Word)
    ensures Around([[]], sub, [[]]) == [sub]
  {
    assert Stuck([], sub, [[]])[0] == sub;
    assert Around([[]], sub, [[]]) == [] + Stuck([], sub, [[]]);
  }

  /**
    Because the unbounded enumerator yields nothing of length 0, the three loops of offset `o`
    yield what one pair of loops over the part table yields there.
  */
  lemma {:induction false} LoopsArePlace(d: seq<char>, sub: Word, rest: nat, o: nat)
    requires |d| >= 1 && o <= rest
    ensures Loops(d, sub, rest, o) == Place(sub, PartTable(d, rest), o)
  {
    var t := PartTable(d, rest);
    PartTableAt(d, rest, o);
    PartTableAt(d, rest, rest - o);
    if o == 0 && rest == 0 {
      AroundNone([], sub, []);
      AroundNone([[]], sub, []);
      AroundNone([], sub, [[]]);
      AroundAlone(sub);
      assert Loops(d, sub, rest, o) == [sub] + [] + [] + [];
    } else if o == 0 {
      AroundNone([], sub, Side(d, rest));
      assert Loops(d, sub, rest, o) == [] + Around([[]], sub, Side(d, rest)) + [] + [];
    } else if o == rest {
      AroundNone(Side(d, rest), sub, []);
      assert Loops(d, sub, rest, o) == [] + [] + Around(Side(d, rest), sub, [[]]);
    } else {
      assert Loops(d, sub, rest, o) == [] + Around(Side(d, o), sub, Side(d, rest - o)) + [];
    }
  }

  /** Everything length `L` yields: the substring at every offset it fits. */
  function AtLength(d: seq<char>, sub: Word, L: nat): seq<Word>
    requires |d| >= 1 && |sub| <= L
  {
    Placements(sub, PartTable(d, L - |sub|), L - |sub| + 1)
  }

  /** Length `L` yields words of length `L` over the alphabet that contain the substring. */
  lemma {:induction false} AtLengthShape(d: seq<char>, sub: Word, L: nat, w: Word)
    requires |d| >= 1 && Over(d, sub) && |sub| <= L
    requires w in AtLength(d, sub, L)
    ensures |w| == L && Over(d, w) && Contains(w, sub)
  {
    PartTableShaped(d, L - |sub|);
    PlacementsShape(d, sub, PartTable(d, L - |sub|), L - |sub| + 1, w);
  }

  /** With `k >= 2` symbols, length `L` yields every word of length `L` over the alphabet that contains the substring. */
  lemma {:induction false} AtLengthComplete(d: seq<char>, sub: Word, L: nat, w: Word)
    requires |d| >= 2 && |sub| <= L
    requires |w| == L && Over(d, w) && Contains(w, sub)
    ensures w in AtLength(d, sub, L)
  {
    PartTableShaped(d, L - |sub|);
    PartTableComplete(d, L - |sub|);
    PlacementsComplete(d, sub, PartTable(d, L - |sub|), L - |sub| + 1, w);
  }

  /** With `k >= 2` symbols, length `L` yields `(L - |sub| + 1) * k^(L - |sub|)` words: one block per offset. */
  lemma {:induction false} AtLengthCount(d: seq<char>, sub: Word, L: nat)
    requires |d| >= 2 && |sub| <= L
    ensures |AtLength(d, sub, L)| == (L - |sub| + 1) * Pow(|d|, L - |sub|)
  {
    PartTableCounted(d, L - |sub|);
    PlacementsCount(|d|, sub, PartTable(d, L - |sub|), L - |sub| + 1);
  }

  /** With a one-symbol alphabet, length `L` yields the substring alone when it fills `L`, and nothing otherwise. */
  lemma {:induction false} AtLengthSingle(d: seq<char>, sub: Word, L: nat)
    requires |d| == 1 && |sub| <= L
    ensures AtLength(d, sub, L) == if L == |sub| then [sub] else []
  {
    PartTableEmpty(d, L - |sub|);
    PlacementsAlone(sub, PartTable(d, L - |sub|), L - |sub| + 1);
  }

  /** Length `L` runs the offsets over the parts of lengths `0..rest`. */
  lemma {:induction false} AtLengthIs(d: seq<char>, sub: Word, L: nat, rest: nat)
    requires |d| >= 1 && L == |sub| + rest
    ensures AtLength(d, sub, L) == Placements(sub, PartTable(d, rest), rest + 1)
  {
  }

  /**
    The offsets are not deduplicated: with at least two symbols, the substring written twice
    comes out twice at its length.
  */
  lemma {:induction false} DoubledTwice(d: seq<char>, sub: Word, L: nat)
    requires |d| >= 2 && |sub| >= 1 && Over(d, sub) && L == 2 * |sub|
    ensures !Unique(AtLength(d, sub, L))
  {
    var t := PartTable(d, |sub|);
    PartTableAt(d, |sub|, 0);
    PartTableAt(d, |sub|, |sub|);
    SideMember(d, |sub|, sub);
    SideShape(d, |sub|);
    PlacementsTwice(sub, t);
    AtLengthIs(d, sub, L, |sub|);
  }

  // ----- all the lengths -----

  /** What the single-alphabet substring enumerator yields for the lengths `lo..hi`, in ascending order of length. */
  function SubstringWords(d: seq<char>, sub: Word, lo: nat, hi: nat): seq<Word>
    requires |d| >= 1 && 1 <= lo && |sub| <= lo
    decreases hi
  {
    if hi < lo then [] else SubstringWords(d, sub, lo, hi - 1) + AtLength(d, sub, hi)
  }

  /** Every word has a length in `lo..hi`, is over the alphabet and contains the substring. */
  lemma {:induction false} SubstringShape(d: seq<char>, sub: Word, lo: nat, hi: nat, w: Word)
    requires |d| >= 1 && Over(d, sub) && 1 <= lo && |sub| <= lo
    requires w in SubstringWords(d, sub, lo, hi)
    ensures lo <= |w| <= hi && Over(d, w) && Contains(w, sub)
    decreases hi
  {
    InAppend(SubstringWords(d, sub, lo, hi - 1), AtLength(d, sub, hi), w);
    if w in AtLength(d, sub, hi) {
      AtLengthShape(d, sub, hi, w);
    } else {
      SubstringShape(d, sub, lo, hi - 1, w);
    }
  }

  /** With at least two symbols every word of a length in `lo..hi` over the alphabet that contains the substring comes out. */
  lemma {:induction false} SubstringComplete(d: seq<char>, sub: Word, lo: nat, hi: nat, w: Word)
    requires |d| >= 2 && Over(d, sub) && 1 <= lo && |sub| <= lo
    requires lo <= |w| <= hi && Over(d, w) && Contains(w, sub)
    ensures w in SubstringWords(d, sub, lo, hi)
    decreases hi
  {
    InAppend(SubstringWords(d, sub, lo, hi - 1), AtLength(d, sub, hi), w);
    if |w| == hi {
      AtLengthComplete(d, sub, hi, w);
    } else {
      SubstringComplete(d, sub, lo, hi - 1, w);
    }
  }

  /**
    Exactly the words of a length in `lo..hi` over the alphabet that contain the substring, when
    the alphabet has at least two symbols; a subset of them otherwise.
  */
  lemma {:induction false} SubstringMember(d: seq<char>, sub: Word, lo: nat, hi: nat, w: Word)
    requires |d| >= 1 && Over(d, sub) && 1 <= lo && |sub| <= lo
    ensures w in SubstringWords(d, sub, lo, hi) ==> lo <= |w| <= hi && Over(d, w) && Contains(w, sub)
    ensures |d| >= 2 ==>
      (w in SubstringWords(d, sub, lo, hi) <==> lo <= |w| <= hi && Over(d, w) && Contains(w, sub))
  {
    if w in SubstringWords(d, sub, lo, hi) {
      SubstringShape(d, sub, lo, hi, w);
    }
    if |d| >= 2 && lo <= |w| <= hi && Over(d, w) && Contains(w, sub) {
      SubstringComplete(d, sub, lo, hi, w);
    }
  }

  /** The sum of `(L - s + 1) * k^(L - s)` over the lengths `L` in `lo..hi`: one block of `k^(L - s)` per offset and length. */
  function SubstringTotal(k: nat, s: nat, lo: nat, hi: nat): nat
    requires 1 <= lo && s <= lo
    decreases hi
  {
    if hi < lo then 0 else SubstringTotal(k, s, lo, hi - 1) + (hi - s + 1) * Pow(k, hi - s)
  }

  /** With `k >= 2` symbols the dictionary has one block of `k^(L - |sub|)` words per offset and length, duplicates kept. */
  lemma {:induction false} SubstringCount(d: seq<char>, sub: Word, lo: nat, hi: nat)
    requires |d| >= 2 && 1 <= lo && |sub| <= lo
    ensures |SubstringWords(d, sub, lo, hi)| == SubstringTotal(|d|, |sub|, lo, hi)
    decreases hi
  {
    if hi >= lo {
      SubstringCount(d, sub, lo, hi - 1);
    }
    SubstringCountStep(d, sub, lo, hi);
  }

  lemma {:induction false} SubstringCountStep(d: seq<char>, sub: Word, lo: nat, hi: nat)
    requires |d| >= 2 && 1 <= lo && |sub| <= lo
    requires hi >= lo ==> |SubstringWords(d, sub, lo, hi - 1)| == SubstringTotal(|d|, |sub|, lo, hi - 1)
    ensures |SubstringWords(d, sub, lo, hi)| == SubstringTotal(|d|, |sub|, lo, hi)
  {
    if hi >= lo {
      AtLengthCount(d, sub, hi);
    }
  }

  lemma {:induction false} SubstringSingleStep(d: seq<char>, sub: Word, lo: nat, hi: nat)
    requires |d| == 1 && 1 <= lo && |sub| <= lo
    requires hi >= lo ==> SubstringWords(d, sub, lo, hi - 1) == if lo == |sub| <= hi - 1 then [sub] else []
    ensures SubstringWords(d, sub, lo, hi) == if lo == |sub| <= hi then [sub] else []
  {
    if hi >= lo {
      AtLengthSingle(d, sub, hi);
      var p, b := SubstringWords(d, sub, lo, hi - 1), AtLength(d, sub, hi);
      assert SubstringWords(d, sub, lo, hi) == p + b;
      if hi == |sub| {
        assert p + b == [] + [sub];
      } else if lo == |sub| {
        assert p + b == [sub] + [];
      } else {
        assert p + b == [] + [];
      }
    }
  }

  /** With a one-symbol alphabet only the substring itself comes out, when its length is in range. */
  lemma {:induction false} SubstringSingle(d: seq<char>, sub: Word, lo: nat, hi: nat)
    requires |d| == 1 && 1 <= lo && |sub| <= lo
    ensures SubstringWords(d, sub, lo, hi) == if lo == |sub| <= hi then [sub] else []
    decreases hi
  {
    if hi >= lo {
      SubstringSingle(d, sub, lo, hi - 1);
      SubstringSingleStep(d, sub, lo, hi);
    } else {
      assert SubstringWords(d, sub, lo, hi) == [];
    }
  }

  /** The offsets are not deduplicated: the substring written twice comes out twice when that length is in range. */
  lemma {:induction false} SubstringRepeats(d: seq<char>, sub: Word, lo: nat, hi: nat)
    requires |d| >= 2 && Over(d, sub) && 1 <= lo && |sub| <= lo <= 2 * |sub| <= hi
    ensures !Unique(SubstringWords(d, sub, lo, hi))
    decreases hi
  {
    if hi == 2 * |sub| {
      DoubledTwice(d, sub, hi);
      RepeatsRight(SubstringWords(d, sub, lo, hi - 1), AtLength(d, sub, hi));
    } else {
      SubstringRepeats(d, sub, lo, hi - 1);
      RepeatsLeft(SubstringWords(d, sub, lo, hi - 1), AtLength(d, sub, hi));
    }
  }

  // ----- the per-position substring filter -----

  /** The words of `ws` that contain `sub`, in their order. */
  function Filter(ws: seq<Word>, sub: Word): seq<Word>
    decreases |ws|
  {
    if |ws| == 0 then []
    else Filter(ws[..|ws| - 1], sub) + (if Contains(ws[|ws| - 1], sub) then [ws[|ws| - 1]] else [])
  }

  /** The filter keeps exactly the words that contain the substring. */
  lemma {:induction false} FilterMember(ws: seq<Word>, sub: Word, w: Word)
    ensures w in Filter(ws, sub) <==> w in ws && Contains(w, sub)
    decreases |ws|
  {
    if |ws| > 0 {
      var p, x := ws[..|ws| - 1], ws[|ws| - 1];
      assert ws == p + [x];
      FilterMember(p, sub, w);
      InAppend(Filter(p, sub), if Contains(x, sub) then [x] else [], w);
      InAppend(p, [x], w);
    }
  }

  /** Each kept word is a word of the input at some position. */
  lemma {:induction false} FilterAt(ws: seq<Word>, sub: Word, i: nat) returns (k: nat)
    requires i < |Filter(ws, sub)|
    ensures k < |ws| && ws[k] == Filter(ws, sub)[i]
    decreases |ws|
  {
    var p := ws[..|ws| - 1];
    if i < |Filter(p, sub)| {
      k := FilterAt(p, sub, i);
    } else {
      k := |ws| - 1;
    }
  }

  /** The filter keeps the input's order: two kept words come from two positions in the same order. */
  lemma {:induction false} FilterPair(ws: seq<Word>, sub: Word, i: nat, j: nat) returns (k: nat, l: nat)
    requires i < j < |Filter(ws, sub)|
    ensures k < l < |ws| && ws[k] == Filter(ws, sub)[i] && ws[l] == Filter(ws, sub)[j]
    decreases |ws|
  {
    var p := ws[..|ws| - 1];
    if j < |Filter(p, sub)| {
      k, l := FilterPair(p, sub, i, j);
    } else {
      k := FilterAt(p, sub, i);
      l := |ws| - 1;
    }
  }
}
