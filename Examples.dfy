/**
  The figures the repository's unit tests check, over the 26 small English letters: the
  position of the last password of the unbounded enumerator, the search for one password, the
  sizes of two ranges of one length and the total size of a five-core partition; and the
  smallest partition with one core per symbol.
*/
module Examples {
  import opened Wrappers
  import opened Odometer
  import opened Alphabet
  import opened Enumeration
  import opened Canonical
  import opened Partitions
  import opened Search
  import opened DictionaryForcer
  import MultiCore
  import Creator

  /** The alphabet of the unit tests: `a` to `z`. */
  const Letters: seq<char> := "abcdefghijklmnopqrstuvwxyz"

  /** The test alphabet is sorted, has no duplicates and holds 26 symbols. */
  lemma {:induction false} LettersAscending()
    ensures Ascending(Letters) && Unique(Letters) && |Letters| == 26
  {
    assert forall i, j :: 0 <= i < j < |Letters| ==> Letters[i] < Letters[j];
    AscendingUnique(Letters);
  }

  /** One more digit on the right multiplies the rank by the radix and adds the digit. */
  lemma {:induction false} RankSnoc(p: seq<nat>, d: nat)
    ensures Rank(p + [d], Odometer.Uniform(26, |p| + 1)) == Rank(p, Odometer.Uniform(26, |p|)) * 26 + d
  {
    assert (p + [d])[..|p|] == p;
    assert Odometer.Uniform(26, |p| + 1)[..|p|] == Odometer.Uniform(26, |p|);
  }

  /** The code of a word over the test alphabet is the rank of its letters' positions. */
  lemma {:induction false} CodeOf(w: Word, v: seq<nat>)
    requires |v| == |w| && forall i :: 0 <= i < |w| ==> v[i] < 26 && w[i] == Letters[v[i]]
    ensures Over(Letters, w) && Code(Letters, w) == Rank(v, Odometer.Uniform(26, |w|))
  {
    LettersAscending();
    forall i | 0 <= i < |w|
      ensures IndexOf(Repeat(Letters, |w|)[i], w[i]) == v[i]
    {
      IndexOfUnique(Letters, v[i]);
    }
    assert Digits(Repeat(Letters, |w|), w) == v;
    RadicesRepeat(Letters, |w|, |w|);
  }

  /** The code of a two-letter word is its first letter's position times 26 plus its second's. */
  lemma {:induction false} CodeOfTwo(x: nat, y: nat)
    requires x < 26 && y < 26
    ensures Over(Letters, [Letters[x], Letters[y]]) && Code(Letters, [Letters[x], Letters[y]]) == 26 * x + y
  {
    CodeOf([Letters[x], Letters[y]], [x, y]);
    RankSnoc([], x);
    RankSnoc([x], y);
    assert [] + [x] == [x] && [x] + [y] == [x, y];
  }

  /**
    Bounds of one length whose codes increase: the range enumerator yields the inclusive run
    between their codes, exactly the words of that length whose codes lie in it.
  */
  lemma {:induction false} SameLengthCount(a: seq<char>, minP: Word, maxP: Word)
    requires Unique(a) && |a| >= 1 && Over(a, minP) && Over(a, maxP) && 1 <= |minP| == |maxP|
    requires !OrdinalLess(maxP, minP) && Code(a, minP) < Code(a, maxP)
    ensures var r := OldRange(Some(a), Some(minP), Some(maxP));
      r.Success? && |r.value| == Code(a, maxP) - Code(a, minP) + 1 &&
      forall w :: w in r.value <==> |w| == |minP| && Over(a, w) && Code(a, minP) <= Code(a, w) <= Code(a, maxP)
  {
    var n := |minP|;
    BoundsAt(a, minP, maxP, n);
    OldRangeAgrees(a, minP, maxP);
    Creator.InRangeErrors(a, minP, maxP);
    OldRangeWords(a, minP, maxP, minP);
    assert RangeSize(a, minP, maxP, n) == RunSize(a, minP, maxP, n) + RangeSize(a, minP, maxP, n + 1);
    forall w
      ensures w in OldRange(Some(a), Some(minP), Some(maxP)).value <==>
        |w| == |minP| && Over(a, w) && Code(a, minP) <= Code(a, w) <= Code(a, maxP)
    {
      OldRangeWords(a, minP, maxP, w);
    }
  }

  // ----- MakeDictionaryFromAlphabetTest -----

  /**
    Over distinct symbols, the last symbol repeated `max` times is the unbounded enumerator's
    last word and occurs nowhere else in it.
  */
  lemma {:induction false} LastOnlyAtEnd(a: seq<char>, minLength: int, maxLength: int)
    requires Unique(a) && |a| >= 2 && 1 <= minLength <= maxLength
    ensures var res := OldUnbounded(Some(a), minLength, maxLength);
      res.Success? && |res.value| == PowerSum(|a|, minLength, maxLength) &&
      |res.value| >= 1 && res.value[|res.value| - 1] == Repeat(a[|a| - 1], maxLength) &&
      forall i :: 0 <= i < |res.value| && res.value[i] == Repeat(a[|a| - 1], maxLength) ==> i + 1 == |res.value|
  {
    DistinctUnique(a);
    OldUnboundedWords(a, minLength, maxLength, []);
  }

  /**
    The unbounded enumerator from length 2 to 5 over the letters yields 26^2 + ... + 26^5
    words and `zzzzz` as the last of them and nowhere else.
  */
  lemma {:induction false} LastOfUnbounded()
    ensures var res := OldUnbounded(Some(Letters), 2, 5);
      res.Success? && |res.value| == 26 * 26 + 26 * 26 * 26 + 26 * 26 * 26 * 26 + 26 * 26 * 26 * 26 * 26 &&
      res.value[|res.value| - 1] == "zzzzz" &&
      forall i :: 0 <= i < |res.value| && res.value[i] == "zzzzz" ==> i + 1 == |res.value|
  {
    LettersAscending();
    LastOnlyAtEnd(Letters, 2, 5);
    assert Repeat(Letters[25], 5) == "zzzzz";
    assert PowerSum(26, 2, 5) == 26 * 26 + 26 * 26 * 26 + 26 * 26 * 26 * 26 + 26 * 26 * 26 * 26 * 26;
  }

  // ----- BruteForce -----

  /** The predicate of the test: the attempt's result is the word sought. */
  function Is(sought: Word): Word -> bool {
    w => w == sought
  }

  /** The attempt of the test: the word itself. */
  function Identity(w: Word): Word {
    w
  }

  /** The identity attempt with the equality check accepts exactly the word sought. */
  lemma {:induction false} AcceptsOnly(sought: Word)
    ensures forall w :: Accepts(Identity, Is(sought))(w) <==> w == sought
  {
    forall w ensures Accepts(Identity, Is(sought))(w) <==> w == sought {
      assert Accepts(Identity, Is(sought))(w) == Is(sought)(Identity(w));
      assert Is(sought)(w) == (w == sought);
    }
  }

  /** A search for the only accepted word of a dictionary that holds it finds that word. */
  lemma {:induction false} FindsIn(ws: seq<Word>, ok: Word -> bool, sought: Word)
    requires sought in ws && forall w :: ok(w) <==> w == sought
    ensures Outcome(Forcer(Success(ws)), ok) == Success(Some(sought))
  {
    var k :| 0 <= k < |ws| && ws[k] == sought;
    assert ok(ws[k]);
    BruteForceFinds(ws, ok);
  }

  /**
    Over distinct symbols, searching the unbounded dictionary with the identity attempt for a
    word of the asked lengths finds that word.
  */
  lemma {:induction false} FindsMember(a: seq<char>, minLength: int, maxLength: int, sought: Word)
    requires Unique(a) && |a| >= 2 && 1 <= minLength <= |sought| <= maxLength && Over(a, sought)
    ensures Outcome(Forcer(OldUnbounded(Some(a), minLength, maxLength)), Accepts(Identity, Is(sought))) == Success(Some(sought))
  {
    DistinctUnique(a);
    OldUnboundedWords(a, minLength, maxLength, sought);
    AcceptsOnly(sought);
    FindsIn(OldUnbounded(Some(a), minLength, maxLength).value, Accepts(Identity, Is(sought)), sought);
  }

  /** Searching the words of length 1 to 10 for `xzasw` with the identity attempt finds it. */
  lemma {:induction false} FindsPassword()
    ensures Outcome(Forcer(OldUnbounded(Some(Letters), 1, 10)), Accepts(Identity, Is("xzasw"))) == Success(Some("xzasw"))
  {
    LettersAscending();
    assert "xzasw" == [Letters[23], Letters[25], Letters[0], Letters[18], Letters[22]];
    FindsMember(Letters, 1, 10, "xzasw");
  }

  // ----- MakeDictionaryOfPasswordsFromAlphabetInRangeTest -----

  /** Two-letter bounds sharing the first letter `a`: the range spans the positions of their second letters. */
  lemma {:induction false} TwoLetterRange(x: nat, y: nat)
    requires x < y < 26
    ensures var r := OldRange(Some(Letters), Some([Letters[0], Letters[x]]), Some([Letters[0], Letters[y]]));
      r.Success? && |r.value| == y - x + 1
  {
    LettersAscending();
    CodeOfTwo(0, x);
    CodeOfTwo(0, y);
    var lo, hi := [Letters[0], Letters[x]], [Letters[0], Letters[y]];
    assert !OrdinalLess(hi, lo) by {
      assert hi[1..] == [Letters[y]] && lo[1..] == [Letters[x]];
      assert Letters[x] < Letters[y];
    }
    SameLengthCount(Letters, lo, hi);
  }

  /** The range from `aa` to `az` yields 26 words. */
  lemma {:induction false} RangeFromFirst()
    ensures var r := OldRange(Some(Letters), Some("aa"), Some("az")); r.Success? && |r.value| == 26
  {
    assert [Letters[0], Letters[0]] == "aa" && [Letters[0], Letters[25]] == "az";
    TwoLetterRange(0, 25);
  }

  /** The range from `ac` to `az` yields 24 words. */
  lemma {:induction false} RangeFromThird()
    ensures var r := OldRange(Some(Letters), Some("ac"), Some("az")); r.Success? && |r.value| == 24
  {
    assert [Letters[0], Letters[2]] == "ac" && [Letters[0], Letters[25]] == "az";
    TwoLetterRange(2, 25);
  }

  // ----- SetDictionariesOfPasswordsTest -----

  /**
    Five cores over the letters from length 2 to 5: the dictionaries together yield the
    26^2 + ... + 26^5 words and one more for each of the 4 inner boundaries.
  */
  lemma {:induction false} FiveCores()
    ensures var res := MultiCore.ForCores(Some(Letters), 2, 5, 5);
      res.Success? && |res.value| == 5 &&
      TotalSize(res.value) == 26 * 26 + 26 * 26 * 26 + 26 * 26 * 26 * 26 + 26 * 26 * 26 * 26 * 26 + 4
  {
    LettersAscending();
    MultiCore.ForCoresPartition(Letters, 2, 5, 5);
    assert PowerSum(26, 2, 5) == 26 * 26 + 26 * 26 * 26 + 26 * 26 * 26 * 26 + 26 * 26 * 26 * 26 * 26;
  }

  // ----- one core per symbol -----

  /**
    Two cores over `ab`, length 1: the first dictionary yields `a` and `b`, the second runs from
    `b` to `b` and yields nothing, so only two words come out rather than three.
  */
  lemma {:induction false} CoresAsSymbols()
    ensures var res := MultiCore.ForCores(Some("ab"), 1, 1, 2);
      res.Success? && |res.value| == 2 && res.value[1] == Success([]) && TotalSize(res.value) == 2
  {
    assert Ascending("ab");
    MultiCore.ForCoresOnePerSymbol("ab", 1, 1, 2);
    assert PowerSum(2, 1, 1) == 2;
  }
}
