/**
  `MultiCoreDictionaryBruteForcer`: a forcer over a list of dictionaries, one per core, and
  the partitioner that splits the words of an alphabet into such a list with the range
  enumerator of the middle revision.
*/
module MultiCore {
  import opened Wrappers
  import opened Odometer
  import opened Alphabet
  import opened Enumeration
  import opened Canonical
  import opened Partitions
  import opened DictionaryForcer
  import Creator

  // ----- the constructor -----

  /** A forcer over one dictionary per core. */
  datatype MultiForcer = MultiForcer(dictionaries: seq<Result<seq<Word>, Error>>)

  /** The constructor: a missing list or a missing dictionary in it is an `ArgumentNull`; otherwise the list is kept. */
  function Create(list: Option<seq<Option<Result<seq<Word>, Error>>>>): (r: Result<MultiForcer, Error>)
    ensures r.Failure? <==> list.None? || exists i :: 0 <= i < |list.value| && list.value[i].None?
    ensures r.Failure? ==> r.error == ArgumentNull
    ensures r.Success? ==> (|r.value.dictionaries| == |list.value| &&
      forall i :: 0 <= i < |list.value| ==> r.value.dictionaries[i] == list.value[i].value)
  {
    if list.None? then Failure(ArgumentNull)
    else if exists i :: 0 <= i < |list.value| && list.value[i].None? then Failure(ArgumentNull)
    else Success(MultiForcer(Values(list.value)))
  }

  /** The constructor with its loop over the dictionaries. */
  method MakeCreate(list: Option<seq<Option<Result<seq<Word>, Error>>>>) returns (r: Result<MultiForcer, Error>)
    ensures r == Create(list)
  {
    if list.None? {
      return Failure(ArgumentNull);
    }
    for i := 0 to |list.value|
      invariant forall k :: 0 <= k < i ==> list.value[k].Some?
    {
      if list.value[i].None? {
        return Failure(ArgumentNull);
      }
    }
    return Success(MultiForcer(Values(list.value)));
  }

  // ----- MakeDictionariesOfPasswordsFromAlphabetForSomeCores -----

  /** The range enumerator of the middle revision over the alphabet, as a dictionary still to be enumerated. */
  function OldRangeOf(a: seq<char>): (Word, Word) --> Result<seq<Word>, Error> {
    (lo: Word, hi: Word) requires Over(a, lo) && Over(a, hi) => OldRange(Some(a), Some(lo), Some(hi))
  }

  /**
    The partitioner: a core count below 1, a length below 1, a minimum above the maximum and a
    missing alphabet are errors; one core gets the unbounded dictionary, and more cores get the
    ranges between the boundary words, reading the first symbol of the alphabet at once.
  */
  function ForCores(alphabet: Option<seq<char>>, minLength: int, maxLength: int, cores: int)
    : Result<seq<Result<seq<Word>, Error>>, Error>
  {
    if cores < 1 then Failure(ArgumentOutOfRange)
    else if minLength <= 0 || maxLength <= 0 then Failure(ArgumentError)
    else if minLength > maxLength then Failure(ArgumentError)
    else if alphabet.None? then Failure(ArgumentNull)
    else if cores == 1 then Success([OldUnbounded(alphabet, minLength, maxLength)])
    else if |alphabet.value| == 0 then Failure(IndexOutOfRange)
    else Success(Split(alphabet.value, minLength, maxLength, cores, OldRangeOf(alphabet.value)))
  }

  /** The partitioner with its loop. */
  method MakeForCores(alphabet: Option<seq<char>>, minLength: int, maxLength: int, cores: int)
    returns (res: Result<seq<Result<seq<Word>, Error>>, Error>)
    ensures res == ForCores(alphabet, minLength, maxLength, cores)
  {
    if cores < 1 {
      return Failure(ArgumentOutOfRange);
    }
    if minLength <= 0 || maxLength <= 0 {
      return Failure(ArgumentError);
    }
    if minLength > maxLength {
      return Failure(ArgumentError);
    }
    if alphabet.None? {
      return Failure(ArgumentNull);
    }
    if cores == 1 {
      return Success([OldUnbounded(alphabet, minLength, maxLength)]);
    }
    if |alphabet.value| == 0 {
      return Failure(IndexOutOfRange);
    }
    var ds := SplitRanges(alphabet.value, minLength, maxLength, cores, OldRangeOf(alphabet.value));
    assert ds == Split(alphabet.value, minLength, maxLength, cores, OldRangeOf(alphabet.value));
    return Success(ds);
  }

  /**
    The partitioner fails exactly on a core count below 1, a length below 1, a minimum above
    the maximum, a missing alphabet and an empty one with several cores.
  */
  lemma {:induction false} ForCoresErrors(alphabet: Option<seq<char>>, minLength: int, maxLength: int, cores: int)
    ensures var res := ForCores(alphabet, minLength, maxLength, cores);
      res.Failure? <==> (cores < 1 || minLength <= 0 || maxLength <= 0 || minLength > maxLength ||
        alphabet.None? || (cores >= 2 && |alphabet.value| == 0))
    ensures var res := ForCores(alphabet, minLength, maxLength, cores);
      res.Failure? ==> (res.error == ArgumentOutOfRange <==> cores < 1)
  {
  }

  /** Past the checks the partitioner gives one dictionary per core; one core gets the unbounded dictionary. */
  lemma {:induction false} ForCoresCount(alphabet: Option<seq<char>>, minLength: int, maxLength: int, cores: int)
    requires ForCores(alphabet, minLength, maxLength, cores).Success?
    ensures var ds := ForCores(alphabet, minLength, maxLength, cores).value;
      |ds| == cores && (cores == 1 ==> ds[0] == OldUnbounded(alphabet, minLength, maxLength))
  {
  }

  /** Range `i` of the split is the range enumerator of this revision between boundaries `i` and `i + 1`. */
  lemma {:induction false} OldSplitAt(a: seq<char>, minLength: nat, maxLength: nat, parts: nat, i: nat)
    requires |a| >= 1 && 2 <= parts && i < parts
    ensures |Split(a, minLength, maxLength, parts, OldRangeOf(a))| == parts
    ensures Split(a, minLength, maxLength, parts, OldRangeOf(a))[i] ==
      OldRange(Some(a), Some(Boundary(a, minLength, maxLength, parts, i)), Some(Boundary(a, minLength, maxLength, parts, i + 1)))
  {
    SplitEntry(a, minLength, maxLength, parts, OldRangeOf(a), i);
  }

  /** The split with the range enumerator of this revision is the split with the newer one. */
  lemma {:induction false} SplitSame(a: seq<char>, minLength: nat, maxLength: nat, parts: nat)
    requires |a| >= 1 && 2 <= parts
    ensures Split(a, minLength, maxLength, parts, OldRangeOf(a)) == Split(a, minLength, maxLength, parts, Creator.RangeOf(a))
  {
    forall i | 0 <= i < parts
      ensures Split(a, minLength, maxLength, parts, OldRangeOf(a))[i] == Split(a, minLength, maxLength, parts, Creator.RangeOf(a))[i]
    {
      OldSplitAt(a, minLength, maxLength, parts, i);
      Creator.SplitAt(a, minLength, maxLength, parts, i);
      OldRangeAgrees(a, Boundary(a, minLength, maxLength, parts, i), Boundary(a, minLength, maxLength, parts, i + 1));
    }
    OldSplitAt(a, minLength, maxLength, parts, 0);
    Creator.SplitAt(a, minLength, maxLength, parts, 0);
  }

  /**
    On lengths of at least 1 and a non-empty alphabet the partitioner gives the same list as the
    newer split for threads.
  */
  lemma {:induction false} ForCoresAgrees(a: seq<char>, minLength: int, maxLength: int, cores: int)
    requires |a| >= 1 && 1 <= minLength
    ensures ForCores(Some(a), minLength, maxLength, cores) == Creator.ForThreads(Some(a), minLength, maxLength, cores)
  {
    if cores >= 2 && minLength <= maxLength {
      SplitSame(a, minLength, maxLength, cores);
      Creator.ForThreadsIsSplit(a, minLength, maxLength, cores);
    } else if cores == 1 && minLength <= maxLength {
      OldUnboundedAgrees(a, minLength, maxLength);
    }
  }

  /**
    Over a sorted alphabet with more symbols than cores, the dictionaries of several cores are
    the ranges of the partition: none of them faults, together they yield every word of the
    asked lengths plus one for each boundary two neighbours share, and each inner boundary is
    yielded by both of its neighbours.
  */
  lemma {:induction false} ForCoresPartition(a: seq<char>, minLength: int, maxLength: int, cores: int)
    requires Ascending(a) && 2 <= cores < |a| && 1 <= minLength <= maxLength
    ensures var res := ForCores(Some(a), minLength, maxLength, cores);
      res.Success? && IsPartition(res.value, a, minLength, maxLength, cores) &&
      (forall i :: 0 <= i < cores ==> res.value[i].Success?) &&
      TotalSize(res.value) == PowerSum(|a|, minLength, maxLength) + cores - 1 &&
      Shares(res.value, a, minLength, maxLength, cores)
  {
    ForCoresAgrees(a, minLength, maxLength, cores);
    Creator.ForThreadsPartition(a, minLength, maxLength, cores);
  }

  /**
    With exactly as many cores as symbols in a sorted alphabet, boundary `cores - 1` lands on the
    last symbol like the closing boundary: the last dictionary runs between two equal words and
    yields nothing, and the sizes sum to every word of the asked lengths plus only `cores - 2`.
  */
  lemma {:induction false} ForCoresOnePerSymbol(a: seq<char>, minLength: int, maxLength: int, cores: int)
    requires Ascending(a) && 2 <= cores == |a| && 1 <= minLength <= maxLength
    ensures var res := ForCores(Some(a), minLength, maxLength, cores);
      res.Success? && IsPartition(res.value, a, minLength, maxLength, cores) &&
      (forall i :: 0 <= i < cores ==> res.value[i].Success?) &&
      res.value[cores - 1] == Success([]) &&
      TotalSize(res.value) == PowerSum(|a|, minLength, maxLength) + cores - 2
  {
    ForCoresAgrees(a, minLength, maxLength, cores);
    Creator.ForThreadsPartition(a, minLength, maxLength, cores);
  }
}
