/**
  The middle revision, `DictionaryBruteForcer`: a forcer that holds one dictionary and searches
  it in order, and the two enumerators of that revision.  Its unbounded enumerator rejects a
  minimum of 0 and does not check the alphabet for emptiness; its range enumerator does not
  check the bound symbols against the alphabet, so their membership is a precondition here.
*/
module DictionaryForcer {
  import opened Wrappers
  import opened Odometer
  import opened Alphabet
  import opened Enumeration
  import opened Canonical
  import opened Uniform
  import opened Search
  import Creator

  // ----- the forcer -----

  /** A forcer over one dictionary: the words it yields, or the fault its enumeration raises. */
  datatype Forcer = Forcer(dictionary: Result<seq<Word>, Error>)

  /** The constructor rejects a missing dictionary and otherwise keeps it as it is. */
  function Create(dictionary: Option<Result<seq<Word>, Error>>): (r: Result<Forcer, Error>)
    ensures r.Failure? <==> dictionary.None?
    ensures r.Failure? ==> r.error == ArgumentNull
    ensures r.Success? ==> r.value.dictionary == dictionary.value
  {
    if dictionary.None? then Failure(ArgumentNull) else Success(Forcer(dictionary.value))
  }

  /** What the sequential search returns: the first accepted word or nothing, or the dictionary's fault. */
  function Outcome(f: Forcer, ok: Word -> bool): Result<Option<Word>, Error> {
    match f.dictionary
    case Failure(e) => Failure(e)
    case Success(ws) => Success(FirstMatch(ws, ok))
  }

  /**
    The sequential search: each word of the dictionary is tried in order until the predicate
    accepts the result of the attempt.  `tried` lists the words the attempt was made on.
  */
  method BruteForce<T>(f: Forcer, attempt: Word -> T, hasSuccess: T -> bool)
    returns (res: Result<Option<Word>, Error>, tried: seq<Word>)
    ensures res == Outcome(f, Accepts(attempt, hasSuccess))
    ensures tried == if f.dictionary.Success? then Tried(f.dictionary.value, Accepts(attempt, hasSuccess)) else []
  {
    if f.dictionary.Failure? {
      return Failure(f.dictionary.error), [];
    }
    var found;
    found, tried := FirstSuccess(f.dictionary.value, attempt, hasSuccess);
    return Success(found), tried;
  }

  /**
    The search finds a word exactly when the dictionary holds an accepted one; the word found
    is accepted and no word before it is, and the attempt is made on exactly the words up to it.
  */
  lemma {:induction false} BruteForceFinds(ws: seq<Word>, ok: Word -> bool)
    ensures var res := Outcome(Forcer(Success(ws)), ok);
      res.Success? && (res.value.Some? <==> exists i :: 0 <= i < |ws| && ok(ws[i])) &&
      (res.value.Some? ==> exists i :: (0 <= i < |ws| && ws[i] == res.value.value && ok(ws[i]) &&
        Tried(ws, ok) == ws[..i + 1] && forall j :: 0 <= j < i ==> !ok(ws[j]))) &&
      (res.value.None? ==> Tried(ws, ok) == ws)
  {
    FirstMatchIff(ws, ok);
    TriedRejected(ws, ok);
    var k := FirstIndex(ws, ok);
    if k < |ws| {
      assert ws[k] == FirstMatch(ws, ok).value;
    }
  }

  // ----- MakeDictionaryOfPasswordsFromAlphabet -----

  /**
    The unbounded enumerator of this revision: a length below 1 and a minimum above the
    maximum are errors, then a missing alphabet; the duplicates are removed, and an empty
    alphabet faults when the first password is spelled.
  */
  function OldUnbounded(alphabet: Option<seq<char>>, minLength: int, maxLength: int): Result<seq<Word>, Error> {
    if minLength <= 0 || maxLength <= 0 then Failure(ArgumentError)
    else if minLength > maxLength then Failure(ArgumentError)
    else if alphabet.None? then Failure(ArgumentNull)
    else if |alphabet.value| == 0 then Failure(IndexOutOfRange)
    else
      Creator.DistinctNonEmpty(alphabet.value);
      Success(UniformWords(Distinct(alphabet.value), minLength, maxLength))
  }

  /** Removing duplicates leaves no symbol only of an empty alphabet. */
  lemma {:induction false} DistinctEmpty(s: seq<char>)
    ensures |Distinct(s)| == 0 ==> |s| == 0
  {
    if |s| > 0 {
      assert s[0] in Distinct(s);
    }
  }

  /** Over the empty alphabet only the empty word can be spelled. */
  lemma {:induction false} OverNothing(w: Word)
    ensures Over([], w) ==> w == []
  {
    if |w| > 0 {
      assert w[0] !in [];
    }
  }

  /** The unbounded enumerator of this revision with its loops. */
  method MakeOldUnbounded(alphabet: Option<seq<char>>, minLength: int, maxLength: int) returns (res: Result<seq<Word>, Error>)
    ensures res == OldUnbounded(alphabet, minLength, maxLength)
  {
    if minLength <= 0 || maxLength <= 0 {
      return Failure(ArgumentError);
    }
    if minLength > maxLength {
      return Failure(ArgumentError);
    }
    if alphabet.None? {
      return Failure(ArgumentNull);
    }
    var d := Distinct(alphabet.value);
    if |d| == 0 {
      DistinctEmpty(alphabet.value);
      return Failure(IndexOutOfRange);
    }
    Creator.DistinctNonEmpty(alphabet.value);
    var out := SweepWords(Repeat(d, maxLength), minLength, maxLength);
    return Success(out);
  }

  /**
    The unbounded enumerator of this revision fails exactly on a length below 1, a minimum
    above the maximum, a missing alphabet and an empty one; only the missing alphabet is an
    `ArgumentNull` and only the empty one an `IndexOutOfRange`.
  */
  lemma {:induction false} OldUnboundedErrors(alphabet: Option<seq<char>>, minLength: int, maxLength: int)
    ensures var res := OldUnbounded(alphabet, minLength, maxLength);
      res.Failure? <==> (minLength <= 0 || maxLength <= 0 || minLength > maxLength ||
        alphabet.None? || |alphabet.value| == 0)
    ensures var res := OldUnbounded(alphabet, minLength, maxLength);
      var valid := 1 <= minLength <= maxLength;
      res.Failure? ==> ((res.error == ArgumentNull <==> valid && alphabet.None?) &&
        (res.error == IndexOutOfRange <==> valid && alphabet.Some? && |alphabet.value| == 0))
  {
  }

  /**
    On lengths of at least 1 and a non-empty alphabet the two revisions of the unbounded
    enumerator agree; the newer one reads a minimum of 0 as 1 where this one rejects it.
  */
  lemma {:induction false} OldUnboundedAgrees(a: seq<char>, minLength: int, maxLength: int)
    requires |a| >= 1
    ensures 1 <= minLength ==> OldUnbounded(Some(a), minLength, maxLength) == Creator.Unbounded(Some(a), minLength, maxLength)
    ensures minLength == 0 < maxLength ==> (OldUnbounded(Some(a), minLength, maxLength).Failure? &&
      Creator.Unbounded(Some(a), minLength, maxLength) == Creator.Unbounded(Some(a), 1, maxLength))
  {
  }

  /**
    With `k >= 2` distinct symbols the unbounded enumerator of this revision yields the
    `k^min + ... + k^max` words of those lengths over the alphabet, in canonical order and each
    once, the last of them being the last symbol repeated `max` times.
  */
  lemma {:induction false} OldUnboundedWords(a: seq<char>, minLength: int, maxLength: int, w: Word)
    requires 1 <= minLength <= maxLength && |Distinct(a)| >= 2
    ensures var res := OldUnbounded(Some(a), minLength, maxLength);
      var d := Distinct(a);
      res.Success? && InOrder(d, res.value) && Unique(res.value) &&
      |res.value| == PowerSum(|d|, minLength, maxLength) && |res.value| >= 1 &&
      res.value[|res.value| - 1] == Repeat(d[|d| - 1], maxLength) &&
      (w in res.value <==> minLength <= |w| <= maxLength && Over(a, w))
  {
    OldUnboundedAgrees(a, minLength, maxLength);
    Creator.UnboundedWords(a, minLength, maxLength, w);
    Creator.UnboundedCount(a, minLength, maxLength);
  }

  // ----- MakeDictionaryOfPasswordsFromAlphabetInRange -----

  /**
    The range enumerator of this revision: a missing argument and an upper bound ordinal-before
    the lower bound are errors; then the odometer runs as in the newer revision.  Nothing checks
    the bound symbols against the alphabet, so they are required to be in it.
  */
  function OldRange(alphabet: Option<seq<char>>, minPassword: Option<Word>, maxPassword: Option<Word>): Result<seq<Word>, Error>
    requires alphabet.Some? && minPassword.Some? && maxPassword.Some? ==>
      Over(alphabet.value, minPassword.value) && Over(alphabet.value, maxPassword.value)
  {
    if minPassword.None? || maxPassword.None? || alphabet.None? then Failure(ArgumentNull)
    else if OrdinalLess(maxPassword.value, minPassword.value) then Failure(ArgumentError)
    else RangeFrom(alphabet.value, minPassword.value, maxPassword.value, |minPassword.value|)
  }

  /** The range enumerator of this revision with its loops. */
  method MakeOldRange(alphabet: Option<seq<char>>, minPassword: Option<Word>, maxPassword: Option<Word>)
    returns (res: Result<seq<Word>, Error>)
    requires alphabet.Some? && minPassword.Some? && maxPassword.Some? ==>
      Over(alphabet.value, minPassword.value) && Over(alphabet.value, maxPassword.value)
    ensures res == OldRange(alphabet, minPassword, maxPassword)
  {
    if minPassword.None? || maxPassword.None? || alphabet.None? {
      return Failure(ArgumentNull);
    }
    if OrdinalLess(maxPassword.value, minPassword.value) {
      return Failure(ArgumentError);
    }
    res := SweepRangeWords(alphabet.value, minPassword.value, maxPassword.value);
  }

  /**
    With the bound symbols in a non-empty alphabet the two revisions of the range enumerator
    agree; over the empty alphabet, where only empty bounds qualify, this one faults on the
    index where the newer one rejects the alphabet.
  */
  lemma {:induction false} OldRangeAgrees(a: seq<char>, minP: Word, maxP: Word)
    requires Over(a, minP) && Over(a, maxP)
    ensures |a| >= 1 ==> OldRange(Some(a), Some(minP), Some(maxP)) == Creator.InRange(Some(a), Some(minP), Some(maxP))
    ensures |a| == 0 ==> (OldRange(Some(a), Some(minP), Some(maxP)) == Failure(IndexOutOfRange) &&
      Creator.InRange(Some(a), Some(minP), Some(maxP)) == Failure(ArgumentError))
  {
    Creator.OverSplit(a, minP, maxP);
    OverNothing(minP);
    OverNothing(maxP);
  }

  /**
    With an alphabet free of duplicates, the range enumerator of this revision yields, in
    canonical order, exactly the words between the bounds: every length from the lower bound's
    to the upper bound's, the lower bound's code applying only at its length and the upper
    bound's only at its length.
  */
  lemma {:induction false} OldRangeWords(a: seq<char>, minP: Word, maxP: Word, w: Word)
    requires Unique(a) && |a| >= 1 && Over(a, minP) && Over(a, maxP)
    requires OldRange(Some(a), Some(minP), Some(maxP)).Success?
    ensures var ws := OldRange(Some(a), Some(minP), Some(maxP)).value;
      InOrder(a, ws) && |ws| == RangeSize(a, minP, maxP, |minP|) &&
      (w in ws <==> (|minP| <= |w| <= |maxP| && Over(a, w) &&
        var low := if |w| == |minP| then Code(a, minP) else 0;
        var high := if |w| == |maxP| then Code(a, maxP) else Pow(|a|, |w|) - 1;
        low < high && low <= Code(a, w) <= high))
  {
    OldRangeAgrees(a, minP, maxP);
    Creator.InRangeWords(a, minP, maxP, w);
  }
}
