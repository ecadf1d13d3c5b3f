/**
  The newest revision of the enumerators, `DictionaryOfPasswordsCreator`: the unbounded, the
  range, the per-position and the two substring enumerators, and the split of the space into
  range dictionaries for several threads.  Each enumerator validates its arguments up front
  and then runs the odometer loops; its result is the words it yields or the exception it
  raises.
*/
module Creator {
  import opened Wrappers
  import opened Odometer
  import opened Alphabet
  import opened Enumeration
  import opened Canonical
  import opened Partitions
  import opened Infix
  import opened Uniform

  // ----- the length arguments -----

  /** The lengths an enumerator is asked for: none at all, or `lo..hi` with `1 <= lo <= hi`. */
  datatype Lengths = Nothing | Between(lo: nat, hi: nat)

  /**
    The length checks every enumerator of this revision makes, in order: a negative length
    and a minimum above the maximum are errors, `0, 0` asks for nothing, and a minimum of 0
    is read as 1.
  */
  function CheckLengths(minLength: int, maxLength: int): (r: Result<Lengths, Error>)
    ensures r.Failure? <==> minLength < 0 || maxLength < 0 || minLength > maxLength
    ensures r.Failure? ==> r.error == ArgumentError
    ensures r == Success(Nothing) <==> minLength == 0 && maxLength == 0
    ensures r.Success? && r.value.Between? ==>
      1 <= r.value.lo <= r.value.hi && r.value.hi == maxLength && r.value.lo == (if minLength == 0 then 1 else minLength)
  {
    if minLength < 0 || maxLength < 0 then Failure(ArgumentError)
    else if minLength > maxLength then Failure(ArgumentError)
    else if minLength == 0 && maxLength == 0 then Success(Nothing)
    else Success(Between(if minLength == 0 then 1 else minLength, maxLength))
  }

  method ValidateLengths(minLength: int, maxLength: int) returns (r: Result<Lengths, Error>)
    ensures r == CheckLengths(minLength, maxLength)
  {
    if minLength < 0 || maxLength < 0 {
      return Failure(ArgumentError);
    }
    if minLength > maxLength {
      return Failure(ArgumentError);
    }
    if minLength == 0 && maxLength == 0 {
      return Success(Nothing);
    }
    var lo := minLength;
    if lo == 0 {
      lo := 1;
    }
    return Success(Between(lo, maxLength));
  }

  // ----- MakeDictionaryFromAlphabet(alphabet, minLength, maxLength) -----

  /** A non-empty alphabet keeps at least one symbol when its duplicates are removed. */
  lemma {:induction false} DistinctNonEmpty(a: seq<char>)
    requires |a| >= 1
    ensures |Distinct(a)| >= 1 && Unique(Distinct(a)) && forall c :: c in Distinct(a) <==> c in a
  {
    assert a[0] in Distinct(a);
  }

  /**
    The unbounded enumerator: after the length checks a missing alphabet and an empty one are
    errors; then the duplicates are removed and every length `lo..hi` is swept by the odometer.
  */
  function Unbounded(alphabet: Option<seq<char>>, minLength: int, maxLength: int): Result<seq<Word>, Error> {
    match CheckLengths(minLength, maxLength)
    case Failure(e) => Failure(e)
    case Success(Nothing) => Success([])
    case Success(Between(lo, hi)) =>
      if alphabet.None? then Failure(ArgumentNull)
      else if |alphabet.value| == 0 then Failure(ArgumentError)
      else
        DistinctNonEmpty(alphabet.value);
        Success(UniformWords(Distinct(alphabet.value), lo, hi))
  }

  /** The unbounded enumerator with its loops: the length loop and the odometer sweep of each length. */
  method MakeUnbounded(alphabet: Option<seq<char>>, minLength: int, maxLength: int) returns (res: Result<seq<Word>, Error>)
    ensures res == Unbounded(alphabet, minLength, maxLength)
  {
    var lengths := ValidateLengths(minLength, maxLength);
    if lengths.Failure? {
      return Failure(lengths.error);
    }
    if lengths.value.Nothing? {
      return Success([]);
    }
    var lo, hi := lengths.value.lo, lengths.value.hi;
    if alphabet.None? {
      return Failure(ArgumentNull);
    }
    if |alphabet.value| == 0 {
      return Failure(ArgumentError);
    }
    var d := Distinct(alphabet.value);
    DistinctNonEmpty(alphabet.value);
    var out := SweepWords(Repeat(d, hi), lo, hi);
    return Success(out);
  }

  /**
    The unbounded enumerator fails exactly on a negative length, a minimum above the maximum,
    and, unless it is asked for `0, 0`, on a missing or an empty alphabet.
  */
  lemma {:induction false} UnboundedErrors(alphabet: Option<seq<char>>, minLength: int, maxLength: int)
    ensures var res := Unbounded(alphabet, minLength, maxLength);
      res.Failure? <==> (minLength < 0 || maxLength < 0 || minLength > maxLength ||
        (maxLength > 0 && (alphabet.None? || |alphabet.value| == 0)))
    ensures var res := Unbounded(alphabet, minLength, maxLength);
      res.Failure? ==> (res.error == ArgumentNull <==> 0 <= minLength <= maxLength && maxLength > 0 && alphabet.None?)
    ensures minLength == 0 && maxLength == 0 ==> Unbounded(alphabet, minLength, maxLength) == Success([])
  {
  }

  /**
    With `k >= 2` distinct symbols the unbounded enumerator yields `k^lo + ... + k^hi` words,
    `lo` being the minimum length read as at least 1; a single distinct symbol yields none.
  */
  lemma {:induction false} UnboundedCount(a: seq<char>, minLength: int, maxLength: int)
    requires 0 <= minLength <= maxLength && 1 <= maxLength && |a| >= 1
    ensures var res := Unbounded(Some(a), minLength, maxLength);
      var k, lo := |Distinct(a)|, if minLength == 0 then 1 else minLength;
      res.Success? && (k >= 2 ==> |res.value| == PowerSum(k, lo, maxLength)) && (k == 1 ==> res.value == [])
  {
    DistinctNonEmpty(a);
    UniformWordsCount(Distinct(a), if minLength == 0 then 1 else minLength, maxLength);
  }

  /**
    The unbounded enumerator yields words of the asked lengths over the alphabet, in
    canonical order over the deduplicated alphabet and so each once; with at least two
    distinct symbols it yields every such word, and its last word is the last symbol repeated
    `maxLength` times.
  */
  lemma {:induction false} UnboundedWords(a: seq<char>, minLength: int, maxLength: int, w: Word)
    requires 0 <= minLength <= maxLength && 1 <= maxLength && |a| >= 1
    ensures var res := Unbounded(Some(a), minLength, maxLength);
      var d, lo := Distinct(a), if minLength == 0 then 1 else minLength;
      res.Success? && InOrder(d, res.value) && Unique(res.value) &&
      (w in res.value ==> lo <= |w| <= maxLength && Over(a, w)) &&
      (|d| >= 2 ==> (w in res.value <==> lo <= |w| <= maxLength && Over(a, w))) &&
      (|d| >= 2 ==> |res.value| >= 1 && res.value[|res.value| - 1] == Repeat(d[|d| - 1], maxLength))
  {
    var d, lo := Distinct(a), if minLength == 0 then 1 else minLength;
    DistinctNonEmpty(a);
    UniformWordsMember(d, lo, maxLength, w);
    UniformWordsOrdered(d, lo, maxLength);
    InOrderUnique(d, UniformWords(d, lo, maxLength));
    if |d| >= 2 {
      UniformWordsLast(d, lo, maxLength);
    }
  }

  // ----- MakeDictionaryFromAlphabet(alphabet, minPassword, maxPassword) -----

  /**
    The range enumerator: missing arguments, an empty alphabet, a bound symbol outside the
    alphabet and an upper bound ordinal-before the lower bound are errors; otherwise the
    odometer runs from the lower bound's length to the upper bound's.
  */
  function InRange(alphabet: Option<seq<char>>, minPassword: Option<Word>, maxPassword: Option<Word>): Result<seq<Word>, Error> {
    if minPassword.None? || maxPassword.None? || alphabet.None? then Failure(ArgumentNull)
    else if |alphabet.value| == 0 then Failure(ArgumentError)
    else if !Over(alphabet.value, minPassword.value + maxPassword.value) then Failure(ArgumentError)
    else if OrdinalLess(maxPassword.value, minPassword.value) then Failure(ArgumentError)
    else
      OverSplit(alphabet.value, minPassword.value, maxPassword.value);
      RangeFrom(alphabet.value, minPassword.value, maxPassword.value, |minPassword.value|)
  }

  /** Both bounds are over the alphabet exactly when their concatenation is. */
  lemma {:induction false} OverSplit(a: seq<char>, u: Word, w: Word)
    ensures Over(a, u + w) <==> Over(a, u) && Over(a, w)
  {
    if Over(a, u + w) {
      assert forall i :: 0 <= i < |u| ==> u[i] == (u + w)[i];
      assert forall i :: 0 <= i < |w| ==> w[i] == (u + w)[|u| + i];
    }
  }

  /** The range enumerator with its loops: an odometer run per length. */
  method MakeInRange(alphabet: Option<seq<char>>, minPassword: Option<Word>, maxPassword: Option<Word>)
    returns (res: Result<seq<Word>, Error>)
    ensures res == InRange(alphabet, minPassword, maxPassword)
  {
    if minPassword.None? || maxPassword.None? || alphabet.None? {
      return Failure(ArgumentNull);
    }
    var a, lo, hi := alphabet.value, minPassword.value, maxPassword.value;
    if |a| == 0 {
      return Failure(ArgumentError);
    }
    var bounds := lo + hi;
    var i := 0;
    while i < |bounds|
      invariant i <= |bounds| && forall j :: 0 <= j < i ==> bounds[j] in a
    {
      if bounds[i] !in a {
        return Failure(ArgumentError);
      }
      i := i + 1;
    }
    if OrdinalLess(hi, lo) {
      return Failure(ArgumentError);
    }
    OverSplit(a, lo, hi);
    res := SweepRangeWords(a, lo, hi);
  }

  /**
    The range enumerator fails with an argument error exactly on a missing argument, an empty
    alphabet, a foreign bound symbol or inverted bounds; past those checks it fails only out
    of range, when the lower bound is empty or, at some length, the start comes after the end.
  */
  lemma {:induction false} InRangeErrors(a: seq<char>, minP: Word, maxP: Word)
    requires |a| >= 1 && Over(a, minP) && Over(a, maxP) && !OrdinalLess(maxP, minP)
    ensures var res := InRange(Some(a), Some(minP), Some(maxP));
      (res.Failure? ==> res.error == IndexOutOfRange) &&
      (res.Failure? <==> (|minP| <= |maxP| &&
        (|minP| == 0 || exists m :: |minP| <= m <= |maxP| && Inverted(a, minP, maxP, m))))
  {
    OverSplit(a, minP, maxP);
    RangeFault(a, minP, maxP, |minP|);
  }

  /** A missing argument, an empty alphabet, a foreign bound symbol and inverted bounds are argument errors. */
  lemma {:induction false} InRangeRejects(alphabet: Option<seq<char>>, minP: Option<Word>, maxP: Option<Word>)
    ensures minP.None? || maxP.None? || alphabet.None? ==> InRange(alphabet, minP, maxP) == Failure(ArgumentNull)
    ensures alphabet.Some? && minP.Some? && maxP.Some? ==>
      var a, lo, hi := alphabet.value, minP.value, maxP.value;
      (|a| == 0 || !Over(a, lo) || !Over(a, hi) || OrdinalLess(hi, lo)) ==>
        InRange(alphabet, minP, maxP) == Failure(ArgumentError)
  {
    if alphabet.Some? && minP.Some? && maxP.Some? {
      OverSplit(alphabet.value, minP.value, maxP.value);
    }
  }

  /**
    Over distinct symbols the range enumerator yields, in canonical order, exactly the words
    from the lower bound's length to the upper bound's whose code is at least the lower
    bound's at its length and at most the upper bound's at its length, at each length whose
    start comes strictly before its end; their number is the sum of the runs' sizes.
  */
  lemma {:induction false} InRangeWords(a: seq<char>, minP: Word, maxP: Word, w: Word)
    requires Unique(a) && |a| >= 1 && Over(a, minP) && Over(a, maxP)
    requires InRange(Some(a), Some(minP), Some(maxP)).Success?
    ensures var ws := InRange(Some(a), Some(minP), Some(maxP)).value;
      InOrder(a, ws) && |ws| == RangeSize(a, minP, maxP, |minP|) &&
      (w in ws <==> (|minP| <= |w| <= |maxP| && Over(a, w) &&
        var low := if |w| == |minP| then Code(a, minP) else 0;
        var high := if |w| == |maxP| then Code(a, maxP) else Pow(|a|, |w|) - 1;
        low < high && low <= Code(a, w) <= high))
  {
    OverSplit(a, minP, maxP);
    RangeOrdered(a, minP, maxP, |minP|);
    RangeCount(a, minP, maxP, |minP|);
    RangeMember(a, minP, maxP, |minP|, w);
    if |minP| <= |w| <= |maxP| {
      BoundsAt(a, minP, maxP, |w|);
    }
  }

  // ----- MakeDictionaryFromSomeAlphabets(alphabets, minLength, maxLength) -----

  /** `s` extended to `n` entries by repeating its last entry; a list that is long enough is left as it is. */
  function Padded<T>(s: seq<T>, n: nat): (p: seq<T>)
    requires |s| >= 1
    ensures |p| == (if |s| < n then n else |s|) && p[..|s|] == s
    ensures forall i :: |s| <= i < |p| ==> p[i] == s[|s| - 1]
  {
    if |s| < n then s + Repeat(s[|s| - 1], n - |s|) else s
  }

  /**
    The caller's list of alphabets, some of which may be null; the per-position enumerators
    append to it.  A fixed-size list (an array passed as an `IList`) refuses every `Add`.
  */
  class AlphabetList {
    var items: seq<Option<seq<char>>>
    const fixedSize: bool

    constructor(items: seq<Option<seq<char>>>, fixedSize: bool)
      ensures this.items == items && this.fixedSize == fixedSize
    {
      this.items := items;
      this.fixedSize := fixedSize;
    }

    /**
      The list is extended to `n` entries by appending its last alphabet, one entry at a time.
      On a fixed-size list the first `Add` throws `NotSupportedException`, so nothing is appended.
    */
    method Extend(n: nat) returns (ok: bool)
      requires |items| >= 1
      modifies this
      ensures ok <==> !(fixedSize && |old(items)| < n)
      ensures items == if fixedSize then old(items) else Padded(old(items), n)
    {
      ghost var start := items;
      if |items| < n {
        if fixedSize {
          return false;
        }
        var last := items[|items| - 1];
        while |items| != n
          invariant |start| <= |items| <= n
          invariant items == start + Repeat(last, |items| - |start|)
          decreases n - |items|
        {
          items := items + [last];
          assert Repeat(last, |items| - |start|) == Repeat(last, |items| - 1 - |start|) + [last];
        }
      }
      return true;
    }
  }

  /** The first fault of the entries, in list order: a null alphabet, or an empty one. */
  function EntryError(items: seq<Option<seq<char>>>): (e: Option<Error>)
    ensures e.None? <==> forall i :: 0 <= i < |items| ==> items[i].Some? && |items[i].value| >= 1
    ensures e.Some? ==> e.value == NullReference || e.value == ArgumentError
    ensures e == Some(NullReference) ==> exists i :: 0 <= i < |items| && items[i].None?
    ensures e == Some(ArgumentError) ==> exists i :: 0 <= i < |items| && items[i].Some? && |items[i].value| == 0
    decreases |items|
  {
    if |items| == 0 then None
    else if items[0].None? then Some(NullReference)
    else if |items[0].value| == 0 then Some(ArgumentError)
    else
      var rest := EntryError(items[1..]);
      assert forall i :: 1 <= i < |items| ==> items[i] == items[1..][i - 1];
      rest
  }

  /** The entry checks: the foreach over the list, throwing at the first null or empty alphabet. */
  method CheckEntries(items: seq<Option<seq<char>>>) returns (e: Option<Error>)
    ensures e == EntryError(items)
  {
    var i := 0;
    while i < |items|
      invariant i <= |items| && EntryError(items) == EntryError(items[i..])
    {
      assert items[i..][1..] == items[i + 1..];
      if items[i].None? {
        return Some(NullReference);
      }
      if |items[i].value| == 0 {
        return Some(ArgumentError);
      }
      i := i + 1;
    }
    return None;
  }

  /** The checks of the per-position enumerators: the list, its entries, then the lengths. */
  function CheckList(list: Option<seq<Option<seq<char>>>>, minLength: int, maxLength: int): Result<Lengths, Error> {
    if list.None? then Failure(ArgumentNull)
    else if |list.value| == 0 then Failure(ArgumentError)
    else if EntryError(list.value).Some? then Failure(EntryError(list.value).value)
    else CheckLengths(minLength, maxLength)
  }

  /**
    What the per-position enumerators leave in the caller's list: a growable list is extended
    once the checks pass; a fixed-size one is left as it is.
  */
  function ListAfter(items: seq<Option<seq<char>>>, fixedSize: bool, minLength: int, maxLength: int): seq<Option<seq<char>>> {
    var lengths := CheckList(Some(items), minLength, maxLength);
    if !fixedSize && lengths.Success? && lengths.value.Between? then Padded(items, lengths.value.hi) else items
  }

  /**
    The per-position enumerator: position `i` draws from the `i`-th alphabet, the last
    alphabet standing in for the positions past the end of the list.  A fixed-size list with
    fewer than `maxLength` alphabets cannot be extended: `NotSupported`.
  */
  function PerPosition(list: Option<seq<Option<seq<char>>>>, fixedSize: bool, minLength: int, maxLength: int)
    : Result<seq<Word>, Error>
  {
    match CheckList(list, minLength, maxLength)
    case Failure(e) => Failure(e)
    case Success(Nothing) => Success([])
    case Success(Between(lo, hi)) =>
      if fixedSize && |list.value| < hi then Failure(NotSupported)
      else Success(Words(Values(Padded(list.value, hi)), lo, hi))
  }

  /** The checks of the per-position enumerators, in the source's order. */
  method ValidateList(list: AlphabetList?, minLength: int, maxLength: int) returns (r: Result<Lengths, Error>)
    ensures r == CheckList(if list == null then None else Some(list.items), minLength, maxLength)
  {
    if list == null {
      return Failure(ArgumentNull);
    }
    if |list.items| == 0 {
      return Failure(ArgumentError);
    }
    var e := CheckEntries(list.items);
    if e.Some? {
      return Failure(e.value);
    }
    r := ValidateLengths(minLength, maxLength);
  }

  /**
    The per-position enumerator with its loops: the checks, the extension of the caller's list
    to `maxLength` alphabets, and an odometer sweep per length with the radices of the list.
  */
  method MakePerPosition(list: AlphabetList?, minLength: int, maxLength: int) returns (res: Result<seq<Word>, Error>)
    modifies list
    ensures res == PerPosition(if list == null then None else Some(old(list.items)), if list == null then false else list.fixedSize, minLength, maxLength)
    ensures list != null ==> list.items == ListAfter(old(list.items), list.fixedSize, minLength, maxLength)
  {
    var lengths := ValidateList(list, minLength, maxLength);
    if lengths.Failure? {
      return Failure(lengths.error);
    }
    if lengths.value.Nothing? {
      return Success([]);
    }
    var lo, hi := lengths.value.lo, lengths.value.hi;
    var extended := list.Extend(hi);
    if !extended {
      return Failure(NotSupported);
    }
    var out := SweepWords(Values(list.items), lo, hi);
    return Success(out);
  }

  /**
    The per-position enumerator fails exactly on a bad list, a bad entry, bad lengths, or a
    fixed-size list too short to be extended, in that order.
  */
  lemma {:induction false} PerPositionErrors(list: Option<seq<Option<seq<char>>>>, fixedSize: bool, minLength: int, maxLength: int)
    ensures var res := PerPosition(list, fixedSize, minLength, maxLength);
      (list.None? ==> res == Failure(ArgumentNull)) &&
      (list.Some? && |list.value| == 0 ==> res == Failure(ArgumentError)) &&
      (list.Some? && (exists i :: 0 <= i < |list.value| && list.value[i].None?) &&
        (forall i :: 0 <= i < |list.value| && list.value[i].Some? ==> |list.value[i].value| >= 1) ==>
        res == Failure(NullReference)) &&
      (list.Some? && |list.value| >= 1 && EntryError(list.value).None? ==>
        (res.Failure? <==> (minLength < 0 || maxLength < 0 || minLength > maxLength ||
          (fixedSize && 0 < maxLength && |list.value| < maxLength))) &&
        (minLength < 0 || maxLength < 0 || minLength > maxLength ==> res == Failure(ArgumentError)) &&
        (0 <= minLength <= maxLength && fixedSize && |list.value| < maxLength ==> res == Failure(NotSupported)))
  {
    if list.Some? && (exists i :: 0 <= i < |list.value| && list.value[i].None?) &&
        (forall i :: 0 <= i < |list.value| && list.value[i].Some? ==> |list.value[i].value| >= 1) {
      assert EntryError(list.value) != Some(ArgumentError);
    }
  }

  /**
    A fixed-size list behaves as a growable one, except that it fails with `NotSupported` when
    the checks pass and it holds fewer alphabets than the maximum length; nothing else differs.
  */
  lemma {:induction false} PerPositionFixedSize(list: Option<seq<Option<seq<char>>>>, minLength: int, maxLength: int,
                                               subString: Option<Word>)
    ensures var c := CheckList(list, minLength, maxLength);
      var short := c.Success? && c.value.Between? && |list.value| < maxLength;
      PerPosition(list, true, minLength, maxLength) ==
        (if short then Failure(NotSupported) else PerPosition(list, false, minLength, maxLength)) &&
      PerPositionWith(list, true, minLength, maxLength, subString) ==
        (if short && subString.Some? then Failure(NotSupported) else PerPositionWith(list, false, minLength, maxLength, subString))
  {
  }

  /**
    The per-position enumerator yields, for each length, the product of the sizes of that
    length's alphabets, less one candidate per length whose last alphabet has a single symbol.
  */
  lemma {:induction false} PerPositionCount(items: seq<Option<seq<char>>>, minLength: int, maxLength: int)
    requires CheckList(Some(items), minLength, maxLength).Success?
    requires CheckList(Some(items), minLength, maxLength).value.Between?
    ensures var lo := if minLength == 0 then 1 else minLength;
      var alphabets := Values(Padded(items, maxLength));
      var res := PerPosition(Some(items), false, minLength, maxLength);
      res.Success? && |res.value| + Shortfall(alphabets, lo, maxLength) == SpaceSize(alphabets, lo, maxLength)
  {
    var lo, hi := if minLength == 0 then 1 else minLength, maxLength;
    WordsCount(Values(Padded(items, hi)), lo, hi);
  }

  /**
    With alphabets free of duplicates, the per-position enumerator yields, in canonical order,
    exactly the words of the asked lengths whose symbol at each position `i` is in alphabet
    `i` of the extended list and whose rank the sweep of their length reaches.
  */
  lemma {:induction false} PerPositionWords(items: seq<Option<seq<char>>>, minLength: int, maxLength: int, w: Word)
    requires CheckList(Some(items), minLength, maxLength).Success?
    requires CheckList(Some(items), minLength, maxLength).value.Between?
    requires UniqueAll(Values(items))
    ensures var lo := if minLength == 0 then 1 else minLength;
      var alphabets := Values(Padded(items, maxLength));
      var res := PerPosition(Some(items), false, minLength, maxLength);
      res.Success? && Unique(res.value) &&
      (w in res.value <==> (lo <= |w| <= maxLength && Spellable(alphabets, w) &&
        WordRank(alphabets, w) < SweepCount(RadicesOf(alphabets, |w|))))
  {
    var lo, hi := if minLength == 0 then 1 else minLength, maxLength;
    var alphabets := Values(Padded(items, hi));
    assert UniqueAll(alphabets) by {
      forall i | 0 <= i < |alphabets|
        ensures Unique(alphabets[i])
      {
        if i >= |items| {
          assert alphabets[i] == Values(items)[|items| - 1];
        } else {
          assert alphabets[i] == Values(items)[i];
        }
      }
    }
    WordsMember(alphabets, lo, hi, w);
    WordsUnique(alphabets, lo, hi);
  }

  /**
    Given one alphabet without duplicates, the per-position enumerator is the unbounded one:
    every position draws from that alphabet.
  */
  lemma {:induction false} PerPositionSingle(a: seq<char>, minLength: int, maxLength: int)
    requires |a| >= 1 && Unique(a)
    ensures PerPosition(Some([Some(a)]), false, minLength, maxLength) == Unbounded(Some(a), minLength, maxLength)
  {
    match CheckLengths(minLength, maxLength)
    case Failure(_) =>
    case Success(Nothing) =>
    case Success(Between(lo, hi)) =>
      DistinctUnique(a);
      assert Values(Padded([Some(a)], hi)) == Repeat(a, hi);
  }

  /**
    Given one alphabet with duplicates, the two differ: the unbounded enumerator removes the
    duplicates and the per-position one keeps them, so over `"aa"` at length 1 the first yields
    nothing and the second yields `"a"` twice.
  */
  lemma {:induction false} PerPositionSingleRepeats()
    ensures Unbounded(Some("aa"), 1, 1) == Success([])
    ensures var res := PerPosition(Some([Some("aa")]), false, 1, 1);
      res.Success? && res.value == ["a", "a"] && res != Unbounded(Some("aa"), 1, 1)
  {
    assert Distinct("aa") == "a";
    UnboundedCount("aa", 1, 1);
    var ws := DoubledWords();
    assert PerPosition(Some([Some("aa")]), false, 1, 1) == Success(ws);
  }

  /** The per-position words over the one alphabet `"aa"` at length 1: two words, each `"a"`. */
  lemma {:induction false} DoubledWords() returns (ws: seq<Word>)
    ensures ws == Words(["aa"], 1, 1) && Values(Padded([Some("aa")], 1)) == ["aa"]
    ensures ws == ["a", "a"]
  {
    PerPositionCount([Some("aa")], 1, 1);
    assert Values(Padded([Some("aa")], 1)) == ["aa"];
    ws := Words(["aa"], 1, 1);
    assert |ws| == 2;
    assert ws == LengthWords(["aa"], 1);
    forall i | 0 <= i < |ws|
      ensures ws[i] == "a"
    {
      var r := RadicesOf(["aa"], 1);
      var v := Span(r, 0, SweepCount(r))[i];
      assert ws[i] == Spell(["aa"], v);
      assert |ws[i]| == 1 && ws[i][0] == "aa"[v[0]];
    }
  }

  // ----- MakeDictionaryFromAlphabet(alphabet, minLength, maxLength, subString) -----

  /** The words over the deduplicated alphabet are the words over the alphabet. */
  lemma {:induction false} OverDistinct(a: seq<char>, w: Word)
    ensures Over(Distinct(a), w) <==> Over(a, w)
  {
  }

  /** The unbounded enumerator asked for exactly `n` symbols yields the side parts of that length. */
  lemma {:induction false} UnboundedSide(a: seq<char>, n: nat)
    requires |a| >= 1
    ensures |Distinct(a)| >= 1 && Unbounded(Some(a), n, n) == Success(Side(Distinct(a), n))
  {
    DistinctNonEmpty(a);
    if n >= 1 {
      SideWords(Distinct(a), n);
    }
  }

  /**
    The substring enumerator: the length checks, then a missing or empty alphabet or substring
    is an error; the minimum length is raised to the substring's, and a substring longer than the
    maximum or with a symbol outside the alphabet yields nothing.  Otherwise every length and every
    offset of the substring is tried, with every left and right part over the deduplicated alphabet.
  */
  function WithSubstring(alphabet: Option<seq<char>>, minLength: int, maxLength: int, subString: Option<Word>): Result<seq<Word>, Error> {
    match CheckLengths(minLength, maxLength)
    case Failure(e) => Failure(e)
    case Success(Nothing) => Success([])
    case Success(Between(lo, hi)) =>
      if alphabet.None? then Failure(ArgumentNull)
      else if |alphabet.value| == 0 then Failure(ArgumentError)
      else if subString.None? then Failure(ArgumentNull)
      else if |subString.value| == 0 then Failure(ArgumentError)
      else
        var sub := subString.value;
        if |sub| > hi || !Over(alphabet.value, sub) then Success([])
        else
          DistinctNonEmpty(alphabet.value);
          Success(SubstringWords(Distinct(alphabet.value), sub, if lo < |sub| then |sub| else lo, hi))
  }

  /** The innermost loop: `l + sub + r` for each right part `r`, in order. */
  method StuckLoop(l: Word, sub: Word, rs: seq<Word>) returns (out: seq<Word>)
    ensures out == Stuck(l, sub, rs)
  {
    out := [];
    for j := 0 to |rs|
      invariant |out| == j && forall k :: 0 <= k < j ==> out[k] == l + sub + rs[k]
    {
      out := out + [l + sub + rs[j]];
    }
  }

  /**
    The left loop around the substring: the left parts of `o` symbols and, afresh for each of
    them, the right parts of `q` symbols, both from the unbounded enumerator.
  */
  method AroundLoop(a: seq<char>, sub: Word, o: nat, q: nat) returns (out: seq<Word>)
    requires |a| >= 1
    ensures |Distinct(a)| >= 1 && out == Around(Side(Distinct(a), o), sub, Side(Distinct(a), q))
  {
    UnboundedSide(a, o);
    UnboundedSide(a, q);
    var d := Distinct(a);
    var lefts := MakeUnbounded(Some(a), o, o);
    out := [];
    for i := 0 to |lefts.value|
      invariant out == Around(lefts.value[..i], sub, Side(d, q))
    {
      var rights := MakeUnbounded(Some(a), q, q);
      var s := StuckLoop(lefts.value[i], sub, rights.value);
      assert lefts.value[..i + 1][..i] == lefts.value[..i];
      out := out + s;
    }
    assert lefts.value[..|lefts.value|] == lefts.value;
  }

  /** The loop over the left parts when no right part is left: `l + sub` for each of them. */
  method EndLoop(ls: seq<Word>, sub: Word) returns (out: seq<Word>)
    ensures out == Around(ls, sub, [[]])
  {
    out := [];
    for i := 0 to |ls|
      invariant out == Around(ls[..i], sub, [[]])
    {
      assert ls[i] + sub + [] == ls[i] + sub;
      assert Stuck(ls[i], sub, [[]]) == [ls[i] + sub];
      assert ls[..i + 1][..i] == ls[..i];
      out := out + [ls[i] + sub];
    }
    assert ls[..|ls|] == ls;
  }

  /**
    One offset `o` of the substring in a password of `L` symbols: the substring alone and the
    substring followed by each right part at offset 0, the parts on both sides, and each left
    part followed by the substring at the last offset.
  */
  method OffsetLoop(a: seq<char>, sub: Word, L: nat, o: nat) returns (out: seq<Word>)
    requires |a| >= 1 && |sub| <= L && o <= L - |sub|
    ensures |Distinct(a)| >= 1 && out == Loops(Distinct(a), sub, L - |sub|, o)
  {
    DistinctNonEmpty(a);
    ghost var d := Distinct(a);
    var rest := L - |sub|;
    var first: seq<Word> := [];
    if o == 0 {
      first := StartLoops(a, sub, rest);
    }
    var mid := AroundLoop(a, sub, o, rest - o);
    var last: seq<Word> := [];
    if o == rest {
      last := FinishLoops(a, sub, rest);
    }
    LoopsJoin(d, sub, rest, o, first, mid, last);
    out := first + mid + last;
  }

  /** Offset 0: the substring alone when it fills the length, then the substring followed by each right part. */
  method StartLoops(a: seq<char>, sub: Word, rest: nat) returns (first: seq<Word>)
    requires |a| >= 1
    ensures |Distinct(a)| >= 1 && first == (if rest == 0 then [sub] else []) + Around([[]], sub, Side(Distinct(a), rest))
  {
    DistinctNonEmpty(a);
    first := [];
    if rest == 0 {
      first := [sub];
    }
    var rights := MakeUnbounded(Some(a), rest, rest);
    UnboundedSide(a, rest);
    var s := StuckLoop([], sub, rights.value);
    assert Around([[]], sub, Side(Distinct(a), rest)) == [] + s;
    first := first + s;
  }

  /** The last offset: each left part followed by the substring. */
  method FinishLoops(a: seq<char>, sub: Word, rest: nat) returns (last: seq<Word>)
    requires |a| >= 1
    ensures |Distinct(a)| >= 1 && last == Around(Side(Distinct(a), rest), sub, [[]])
  {
    var lefts := MakeUnbounded(Some(a), rest, rest);
    UnboundedSide(a, rest);
    last := EndLoop(lefts.value, sub);
  }

  /** The offset loop of one length `L`: offsets `0..L-|sub|`, in order. */
  method LengthLoop(a: seq<char>, sub: Word, L: nat) returns (out: seq<Word>)
    requires |a| >= 1 && |sub| <= L
    ensures |Distinct(a)| >= 1 && out == AtLength(Distinct(a), sub, L)
  {
    DistinctNonEmpty(a);
    var d := Distinct(a);
    var rest := L - |sub|;
    ghost var t := PartTable(d, rest);
    out := [];
    for o := 0 to rest + 1
      invariant out == Placements(sub, t, o)
    {
      var step := OffsetLoop(a, sub, L, o);
      LoopsArePlace(d, sub, rest, o);
      assert step == Place(sub, t, o);
      PlacementsStep(sub, t, o);
      out := out + step;
    }
    assert out == AtLength(d, sub, L);
  }

  /** The substring enumerator with its loops: the checks, then the length loop. */
  method MakeWithSubstring(alphabet: Option<seq<char>>, minLength: int, maxLength: int, subString: Option<Word>)
    returns (res: Result<seq<Word>, Error>)
    ensures res == WithSubstring(alphabet, minLength, maxLength, subString)
  {
    var lengths := ValidateLengths(minLength, maxLength);
    if lengths.Failure? {
      return Failure(lengths.error);
    }
    if lengths.value.Nothing? {
      return Success([]);
    }
    var lo, hi := lengths.value.lo, lengths.value.hi;
    if alphabet.None? {
      return Failure(ArgumentNull);
    }
    if |alphabet.value| == 0 {
      return Failure(ArgumentError);
    }
    if subString.None? {
      return Failure(ArgumentNull);
    }
    var sub := subString.value;
    if |sub| == 0 {
      return Failure(ArgumentError);
    }
    if lo < |sub| {
      lo := |sub|;
    }
    if |sub| > hi || !Over(alphabet.value, sub) {
      return Success([]);
    }
    var out := SubstringLoop(alphabet.value, sub, lo, hi);
    return Success(out);
  }

  /** The length loop of the substring enumerator: lengths `lo..hi`, in order. */
  method SubstringLoop(a: seq<char>, sub: Word, lo: nat, hi: nat) returns (out: seq<Word>)
    requires |a| >= 1 && 1 <= lo && |sub| <= lo
    ensures |Distinct(a)| >= 1 && out == SubstringWords(Distinct(a), sub, lo, hi)
  {
    DistinctNonEmpty(a);
    var d := Distinct(a);
    out := [];
    if hi < lo {
      assert SubstringWords(d, sub, lo, hi) == [];
      return;
    }
    for L := lo to hi + 1
      invariant out == SubstringWords(d, sub, lo, L - 1)
    {
      var step := LengthLoop(a, sub, L);
      assert SubstringWords(d, sub, lo, L) == SubstringWords(d, sub, lo, L - 1) + step;
      out := out + step;
    }
  }

  /**
    The substring enumerator fails exactly on a negative length, a minimum above the maximum,
    and, unless it is asked for `0, 0`, on a missing or empty alphabet or substring; a missing
    argument is an `ArgumentNull`, any other fault an `ArgumentError`.
  */
  lemma {:induction false} WithSubstringErrors(alphabet: Option<seq<char>>, minLength: int, maxLength: int, subString: Option<Word>)
    ensures var res := WithSubstring(alphabet, minLength, maxLength, subString);
      res.Failure? <==> (minLength < 0 || maxLength < 0 || minLength > maxLength ||
        (maxLength > 0 && (alphabet.None? || |alphabet.value| == 0 || subString.None? || |subString.value| == 0)))
    ensures var res := WithSubstring(alphabet, minLength, maxLength, subString);
      res.Failure? ==> (res.error == ArgumentNull <==> (0 <= minLength <= maxLength && maxLength > 0 &&
        (alphabet.None? || (|alphabet.value| >= 1 && subString.None?))))
  {
  }

  /** A word over the alphabet holding the substring makes the substring a word over the alphabet. */
  lemma {:induction false} ContainsOver(a: seq<char>, w: Word, sub: Word)
    requires Over(a, w) && Contains(w, sub)
    ensures Over(a, sub) && |sub| <= |w|
  {
    ContainsIff(w, sub);
    var o: nat :| OccursAt(w, sub, o);
    assert forall i :: 0 <= i < |sub| ==> sub[i] == w[o..o + |sub|][i];
  }

  /**
    The substring enumerator yields only words over the alphabet that hold the substring and
    whose length is between the minimum (read as at least 1 and at least the substring's length)
    and the maximum; with at least two distinct symbols it yields every such word.
  */
  lemma {:induction false} WithSubstringWords(a: seq<char>, minLength: int, maxLength: int, sub: Word, w: Word)
    requires 0 <= minLength <= maxLength && 1 <= maxLength && |a| >= 1 && |sub| >= 1
    ensures var res := WithSubstring(Some(a), minLength, maxLength, Some(sub));
      var lo := if minLength <= |sub| then |sub| else minLength;
      res.Success? && (w in res.value ==> lo <= |w| <= maxLength && Over(a, w) && Contains(w, sub)) &&
      (|Distinct(a)| >= 2 ==> (w in res.value <==> (lo <= |w| <= maxLength && Over(a, w) && Contains(w, sub))))
  {
    DistinctNonEmpty(a);
    var d := Distinct(a);
    var lo := if minLength <= |sub| then |sub| else minLength;
    OverDistinct(a, w);
    OverDistinct(a, sub);
    if |sub| <= maxLength && Over(a, sub) {
      SubstringMember(d, sub, lo, maxLength, w);
    } else if Over(a, w) && Contains(w, sub) {
      ContainsOver(a, w, sub);
    }
  }

  /**
    With `k >= 2` distinct symbols, a substring of `s` symbols over the alphabet yields, for each
    length `L` of the range, `(L - s + 1) * k^(L - s)` words: one per offset and pair of parts.
  */
  lemma {:induction false} WithSubstringCount(a: seq<char>, minLength: int, maxLength: int, sub: Word)
    requires 0 <= minLength <= maxLength && |sub| >= 1 && |sub| <= maxLength && Over(a, sub) && |Distinct(a)| >= 2
    ensures var res := WithSubstring(Some(a), minLength, maxLength, Some(sub));
      var lo := if minLength <= |sub| then |sub| else minLength;
      res.Success? && |res.value| == SubstringTotal(|Distinct(a)|, |sub|, lo, maxLength)
  {
    assert |a| >= 1;
    WithSubstringIs(a, minLength, maxLength, sub);
    var lo := if minLength <= |sub| then |sub| else minLength;
    SubstringCount(Distinct(a), sub, lo, maxLength);
  }

  /** Past the checks, with the substring over the alphabet and short enough, the enumerator yields its lengths from the longer of the minimum and the substring. */
  lemma {:induction false} WithSubstringIs(a: seq<char>, minLength: int, maxLength: int, sub: Word)
    requires 0 <= minLength <= maxLength && |sub| >= 1 && |sub| <= maxLength && Over(a, sub) && |a| >= 1
    ensures |Distinct(a)| >= 1
    ensures var lo := if minLength <= |sub| then |sub| else minLength;
      WithSubstring(Some(a), minLength, maxLength, Some(sub)) == Success(SubstringWords(Distinct(a), sub, lo, maxLength))
  {
    DistinctNonEmpty(a);
  }

  /** With a single distinct symbol only the substring itself is yielded, when its length is allowed. */
  lemma {:induction false} WithSubstringSingle(a: seq<char>, minLength: int, maxLength: int, sub: Word)
    requires 0 <= minLength <= maxLength && |sub| >= 1 && |sub| <= maxLength && Over(a, sub) && |Distinct(a)| == 1
    ensures WithSubstring(Some(a), minLength, maxLength, Some(sub)) ==
      Success(if minLength <= |sub| then [sub] else [])
  {
    assert |a| >= 1;
    WithSubstringIs(a, minLength, maxLength, sub);
    var lo := if minLength <= |sub| then |sub| else minLength;
    SubstringSingle(Distinct(a), sub, lo, maxLength);
  }

  /**
    The offsets are not deduplicated: when the doubled substring's length is in range, it is
    yielded once with the substring at offset 0 and once at offset `|sub|`.
  */
  lemma {:induction false} WithSubstringRepeats(a: seq<char>, minLength: int, maxLength: int, sub: Word)
    requires 0 <= minLength <= 2 * |sub| <= maxLength && |sub| >= 1 && Over(a, sub) && |Distinct(a)| >= 2
    ensures var res := WithSubstring(Some(a), minLength, maxLength, Some(sub));
      res.Success? && !Unique(res.value)
  {
    assert |a| >= 1;
    OverDistinct(a, sub);
    WithSubstringIs(a, minLength, maxLength, sub);
    var lo := if minLength <= |sub| then |sub| else minLength;
    SubstringRepeats(Distinct(a), sub, lo, maxLength);
  }

  // ----- MakeDictionaryFromSomeAlphabets(alphabets, minLength, maxLength, subString) -----

  /**
    The per-position substring enumerator: the checks of the per-position enumerator, then a
    missing substring is an error; the per-position words that hold the substring are yielded.
  */
  function PerPositionWith(list: Option<seq<Option<seq<char>>>>, fixedSize: bool, minLength: int, maxLength: int,
                           subString: Option<Word>): Result<seq<Word>, Error>
  {
    match CheckList(list, minLength, maxLength)
    case Failure(e) => Failure(e)
    case Success(Nothing) => Success([])
    case Success(Between(lo, hi)) =>
      if subString.None? then Failure(ArgumentNull)
      else if fixedSize && |list.value| < hi then Failure(NotSupported)
      else Success(Filter(Words(Values(Padded(list.value, hi)), lo, hi), subString.value))
  }

  /** The test of each swept password: only those holding the substring are kept, in order. */
  method FilterLoop(ws: seq<Word>, sub: Word) returns (out: seq<Word>)
    ensures out == Filter(ws, sub)
  {
    out := [];
    for i := 0 to |ws|
      invariant out == Filter(ws[..i], sub)
    {
      assert ws[..i + 1][..i] == ws[..i];
      if Contains(ws[i], sub) {
        out := out + [ws[i]];
      }
    }
    assert ws[..|ws|] == ws;
  }

  /**
    The per-position substring enumerator with its loops: the checks, the extension of the
    caller's list, the sweep of every length and the substring test of each password.
  */
  method MakePerPositionWith(list: AlphabetList?, minLength: int, maxLength: int, subString: Option<Word>)
    returns (res: Result<seq<Word>, Error>)
    modifies list
    ensures res == PerPositionWith(if list == null then None else Some(old(list.items)),
      if list == null then false else list.fixedSize, minLength, maxLength, subString)
    ensures list != null ==>
      list.items == if subString.None? then old(list.items) else ListAfter(old(list.items), list.fixedSize, minLength, maxLength)
  {
    var lengths := ValidateList(list, minLength, maxLength);
    if lengths.Failure? {
      return Failure(lengths.error);
    }
    if lengths.value.Nothing? {
      return Success([]);
    }
    if subString.None? {
      return Failure(ArgumentNull);
    }
    var lo, hi := lengths.value.lo, lengths.value.hi;
    var extended := list.Extend(hi);
    if !extended {
      return Failure(NotSupported);
    }
    var all := SweepWords(Values(list.items), lo, hi);
    var out := FilterLoop(all, subString.value);
    return Success(out);
  }

  /**
    The per-position substring enumerator fails exactly when the per-position checks fail (with
    their error), or when lengths other than `0, 0` come with a missing substring
    (`ArgumentNull`) or with a fixed-size list too short to be extended (`NotSupported`).
    With lengths `0, 0` nothing is yielded, even for a missing substring.
  */
  lemma {:induction false} PerPositionWithErrors(list: Option<seq<Option<seq<char>>>>, fixedSize: bool,
                                                minLength: int, maxLength: int, subString: Option<Word>)
    ensures var c := CheckList(list, minLength, maxLength);
      var res := PerPositionWith(list, fixedSize, minLength, maxLength, subString);
      (res.Failure? <==> (c.Failure? || (c.value.Between? && (subString.None? || (fixedSize && |list.value| < maxLength))))) &&
      (c.Failure? ==> res == Failure(c.error)) &&
      (c.Success? && 0 < maxLength && subString.None? ==> res == Failure(ArgumentNull)) &&
      (c.Success? && 0 < maxLength && subString.Some? && fixedSize && |list.value| < maxLength ==> res == Failure(NotSupported)) &&
      (c.Success? && minLength == 0 && maxLength == 0 ==> res == Success([]))
  {
  }

  /** Every word holds the empty substring. */
  lemma {:induction false} ContainsEmpty(w: Word)
    ensures Contains(w, [])
  {
    assert w[..0] == [];
  }

  /** The filter drops nothing when every word holds the substring. */
  lemma {:induction false} FilterKeepsAll(ws: seq<Word>, sub: Word)
    requires forall i :: 0 <= i < |ws| ==> Contains(ws[i], sub)
    ensures Filter(ws, sub) == ws
    decreases |ws|
  {
    if |ws| > 0 {
      var p := ws[..|ws| - 1];
      assert forall i :: 0 <= i < |p| ==> p[i] == ws[i];
      FilterKeepsAll(p, sub);
      assert ws == p + [ws[|ws| - 1]];
    }
  }

  /** With the empty substring the per-position substring enumerator is the per-position enumerator. */
  lemma {:induction false} PerPositionWithEmpty(list: Option<seq<Option<seq<char>>>>, fixedSize: bool, minLength: int, maxLength: int)
    ensures PerPositionWith(list, fixedSize, minLength, maxLength, Some([])) == PerPosition(list, fixedSize, minLength, maxLength)
  {
    var c := CheckList(list, minLength, maxLength);
    if c.Success? && c.value.Between? && !(fixedSize && |list.value| < c.value.hi) {
      FilterEmpty(Words(Values(Padded(list.value, c.value.hi)), c.value.lo, c.value.hi));
    }
  }

  /** The filter on the empty substring keeps every word. */
  lemma {:induction false} FilterEmpty(ws: seq<Word>)
    ensures Filter(ws, []) == ws
  {
    forall i | 0 <= i < |ws|
      ensures Contains(ws[i], [])
    {
      ContainsEmpty(ws[i]);
    }
    FilterKeepsAll(ws, []);
  }

  /** The filter keeps the order of its input, so a list without repeats stays without repeats. */
  lemma {:induction false} FilterUnique(ws: seq<Word>, sub: Word)
    requires Unique(ws)
    ensures Unique(Filter(ws, sub))
  {
    var f := Filter(ws, sub);
    forall i, j | 0 <= i < j < |f|
      ensures f[i] != f[j]
    {
      var k, l := FilterPair(ws, sub, i, j);
    }
  }

  /**
    With alphabets free of duplicates, the per-position substring enumerator yields, each once,
    exactly the words of the per-position enumerator that hold the substring.
  */
  lemma {:induction false} PerPositionWithWords(items: seq<Option<seq<char>>>, minLength: int, maxLength: int, sub: Word, w: Word)
    requires CheckList(Some(items), minLength, maxLength).Success?
    requires CheckList(Some(items), minLength, maxLength).value.Between?
    requires UniqueAll(Values(items))
    ensures var lo := if minLength == 0 then 1 else minLength;
      var alphabets := Values(Padded(items, maxLength));
      var res := PerPositionWith(Some(items), false, minLength, maxLength, Some(sub));
      res.Success? && Unique(res.value) &&
      (w in res.value <==> (lo <= |w| <= maxLength && Spellable(alphabets, w) &&
        WordRank(alphabets, w) < SweepCount(RadicesOf(alphabets, |w|)) && Contains(w, sub)))
  {
    var lo := if minLength == 0 then 1 else minLength;
    var ws := Words(Values(Padded(items, maxLength)), lo, maxLength);
    PerPositionWords(items, minLength, maxLength, w);
    assert PerPosition(Some(items), false, minLength, maxLength) == Success(ws);
    FilterMember(ws, sub, w);
    FilterUnique(ws, sub);
  }

  /** The filter keeps the per-position order: two kept words come from two positions in the same order. */
  lemma {:induction false} PerPositionWithOrder(items: seq<Option<seq<char>>>, minLength: int, maxLength: int, sub: Word, i: nat, j: nat)
      returns (k: nat, l: nat)
    requires CheckList(Some(items), minLength, maxLength).Success?
    requires CheckList(Some(items), minLength, maxLength).value.Between?
    requires PerPositionWith(Some(items), false, minLength, maxLength, Some(sub)).Success?
    requires i < j < |PerPositionWith(Some(items), false, minLength, maxLength, Some(sub)).value|
    ensures var all := PerPosition(Some(items), false, minLength, maxLength).value;
      var kept := PerPositionWith(Some(items), false, minLength, maxLength, Some(sub)).value;
      k < l < |all| && all[k] == kept[i] && all[l] == kept[j]
  {
    var lo := if minLength == 0 then 1 else minLength;
    var ws := Words(Values(Padded(items, maxLength)), lo, maxLength);
    k, l := FilterPair(ws, sub, i, j);
  }

  /**
    Given one alphabet without duplicates and at least two symbols, the per-position substring
    enumerator yields the same words as the substring enumerator.
  */
  lemma {:induction false} PerPositionWithSingle(a: seq<char>, minLength: int, maxLength: int, sub: Word, w: Word)
    requires |a| >= 2 && Unique(a) && 0 <= minLength <= maxLength && 1 <= maxLength && |sub| >= 1
    ensures var mine := PerPositionWith(Some([Some(a)]), false, minLength, maxLength, Some(sub));
      var theirs := WithSubstring(Some(a), minLength, maxLength, Some(sub));
      mine.Success? && theirs.Success? && (w in mine.value <==> w in theirs.value)
  {
    var lo := if minLength == 0 then 1 else minLength;
    DistinctUnique(a);
    PerPositionSingle(a, minLength, maxLength);
    assert Values(Padded([Some(a)], maxLength)) == Repeat(a, maxLength);
    var ws := UniformWords(a, lo, maxLength);
    assert PerPositionWith(Some([Some(a)]), false, minLength, maxLength, Some(sub)) == Success(Filter(ws, sub));
    FilterMember(ws, sub, w);
    UniformWordsMember(a, lo, maxLength, w);
    WithSubstringWords(a, minLength, maxLength, sub, w);
    if Contains(w, sub) {
      ContainsIff(w, sub);
      var o: nat :| OccursAt(w, sub, o);
    }
  }

  /**
    The two are not the same sequence: when the doubled substring's length is allowed, the
    substring enumerator yields a word twice and the per-position one yields each word once.
  */
  lemma {:induction false} PerPositionWithSingleDiffers(a: seq<char>, minLength: int, maxLength: int, sub: Word)
    requires |a| >= 2 && Unique(a) && 0 <= minLength <= 2 * |sub| <= maxLength && |sub| >= 1 && Over(a, sub)
    ensures PerPositionWith(Some([Some(a)]), false, minLength, maxLength, Some(sub)) != WithSubstring(Some(a), minLength, maxLength, Some(sub))
  {
    DistinctUnique(a);
    WithSubstringRepeats(a, minLength, maxLength, sub);
    assert Values([Some(a)]) == [a];
    PerPositionWithWords([Some(a)], minLength, maxLength, sub, sub);
  }

  // ----- MakeDictionariesForSomeThreads -----

  /** The range enumerator over the alphabet, as a dictionary still to be enumerated. */
  function RangeOf(a: seq<char>): (Word, Word) -> Result<seq<Word>, Error> {
    (lo, hi) => InRange(Some(a), Some(lo), Some(hi))
  }

  /**
    The split for several threads: a thread count below 1 and bad lengths are errors, `0, 0`
    gives no dictionary, a missing alphabet is an error; one thread gets the unbounded
    dictionary, and more threads get the ranges between the boundary words, reading the first
    symbol of the alphabet at once.  The dictionaries are not enumerated, so their own faults
    stay inside them.
  */
  function ForThreads(alphabet: Option<seq<char>>, minLength: int, maxLength: int, threads: int)
    : Result<seq<Result<seq<Word>, Error>>, Error>
  {
    if threads < 1 then Failure(ArgumentOutOfRange)
    else match CheckLengths(minLength, maxLength)
      case Failure(e) => Failure(e)
      case Success(Nothing) => Success([])
      case Success(Between(lo, hi)) =>
        if alphabet.None? then Failure(ArgumentNull)
        else if threads == 1 then Success([Unbounded(alphabet, lo, hi)])
        else if |alphabet.value| == 0 then Failure(IndexOutOfRange)
        else Success(Split(alphabet.value, lo, hi, threads, RangeOf(alphabet.value)))
  }

  /** The split for several threads with its loop. */
  method MakeForThreads(alphabet: Option<seq<char>>, minLength: int, maxLength: int, threads: int)
    returns (res: Result<seq<Result<seq<Word>, Error>>, Error>)
    ensures res == ForThreads(alphabet, minLength, maxLength, threads)
  {
    if threads < 1 {
      return Failure(ArgumentOutOfRange);
    }
    var lengths := ValidateLengths(minLength, maxLength);
    if lengths.Failure? {
      return Failure(lengths.error);
    }
    if lengths.value.Nothing? {
      return Success([]);
    }
    var lo, hi := lengths.value.lo, lengths.value.hi;
    if alphabet.None? {
      return Failure(ArgumentNull);
    }
    if threads == 1 {
      return Success([Unbounded(alphabet, lo, hi)]);
    }
    if |alphabet.value| == 0 {
      return Failure(IndexOutOfRange);
    }
    var ds := SplitRanges(alphabet.value, lo, hi, threads, RangeOf(alphabet.value));
    assert ds == Split(alphabet.value, lo, hi, threads, RangeOf(alphabet.value));
    return Success(ds);
  }

  /**
    The split fails exactly on a thread count below 1, bad lengths, and, unless it is asked for
    `0, 0`, a missing alphabet or an empty one with several threads.
  */
  lemma {:induction false} ForThreadsErrors(alphabet: Option<seq<char>>, minLength: int, maxLength: int, threads: int)
    ensures var res := ForThreads(alphabet, minLength, maxLength, threads);
      res.Failure? <==> (threads < 1 || minLength < 0 || maxLength < 0 || minLength > maxLength ||
        (maxLength > 0 && (alphabet.None? || (threads >= 2 && |alphabet.value| == 0))))
    ensures var res := ForThreads(alphabet, minLength, maxLength, threads);
      res.Failure? && threads < 1 ==> res.error == ArgumentOutOfRange
    ensures var res := ForThreads(alphabet, minLength, maxLength, threads);
      res.Failure? && threads >= 2 && 0 <= minLength <= maxLength && alphabet.Some? ==> res.error == IndexOutOfRange
  {
  }

  /**
    Past the checks the split gives one dictionary per thread, or none for `0, 0`; a single
    thread gets the unbounded dictionary of the same lengths.
  */
  lemma {:induction false} ForThreadsCount(alphabet: Option<seq<char>>, minLength: int, maxLength: int, threads: int)
    requires ForThreads(alphabet, minLength, maxLength, threads).Success?
    ensures var ds := ForThreads(alphabet, minLength, maxLength, threads).value;
      (maxLength == 0 ==> ds == []) && (maxLength > 0 ==> |ds| == threads) &&
      (maxLength > 0 && threads == 1 ==> ds[0] == Unbounded(alphabet, minLength, maxLength))
  {
  }

  /** The range enumerator between two neighbouring boundaries of a sorted alphabet is that range of the partition. */
  lemma {:induction false} RangeIsPiece(a: seq<char>, minLength: nat, maxLength: nat, parts: nat, i: nat)
    requires Ascending(a) && |a| >= 1 && 2 <= parts && i < parts && 1 <= maxLength && minLength <= maxLength
    ensures InRange(Some(a), Some(Boundary(a, minLength, maxLength, parts, i)), Some(Boundary(a, minLength, maxLength, parts, i + 1))) ==
      Piece(a, minLength, maxLength, parts, i)
  {
    var lo, hi := Boundary(a, minLength, maxLength, parts, i), Boundary(a, minLength, maxLength, parts, i + 1);
    OverSplit(a, lo, hi);
    BoundariesOrdered(a, minLength, maxLength, parts, i);
    assert InRange(Some(a), Some(lo), Some(hi)) == RangeFrom(a, lo, hi, |lo|);
  }

  /** Range `i` of the split is the range enumerator between boundaries `i` and `i + 1`. */
  lemma {:induction false} SplitAt(a: seq<char>, minLength: nat, maxLength: nat, parts: nat, i: nat)
    requires |a| >= 1 && 2 <= parts && i < parts
    ensures |Split(a, minLength, maxLength, parts, RangeOf(a))| == parts
    ensures Split(a, minLength, maxLength, parts, RangeOf(a))[i] ==
      InRange(Some(a), Some(Boundary(a, minLength, maxLength, parts, i)), Some(Boundary(a, minLength, maxLength, parts, i + 1)))
  {
    SplitEntry(a, minLength, maxLength, parts, RangeOf(a), i);
  }

  /** Over a sorted alphabet the split made with the range enumerator is the partition. */
  lemma {:induction false} SplitIsPartition(a: seq<char>, minLength: nat, maxLength: nat, parts: nat)
    requires Ascending(a) && |a| >= 1 && 2 <= parts && 1 <= maxLength && minLength <= maxLength
    ensures IsPartition(Split(a, minLength, maxLength, parts, RangeOf(a)), a, minLength, maxLength, parts)
  {
    forall i | 0 <= i < parts
      ensures Split(a, minLength, maxLength, parts, RangeOf(a))[i] == Piece(a, minLength, maxLength, parts, i)
    {
      SplitAt(a, minLength, maxLength, parts, i);
      RangeIsPiece(a, minLength, maxLength, parts, i);
    }
    SplitAt(a, minLength, maxLength, parts, 0);
  }

  /** Past the checks, several threads over a non-empty alphabet get the split into ranges. */
  lemma {:induction false} ForThreadsIsSplit(a: seq<char>, minLength: int, maxLength: int, threads: int)
    requires |a| >= 1 && 2 <= threads && 0 <= minLength <= maxLength && 1 <= maxLength
    ensures ForThreads(Some(a), minLength, maxLength, threads) ==
      Success(Split(a, if minLength == 0 then 1 else minLength, maxLength, threads, RangeOf(a)))
  {
  }

  /**
    Over a sorted alphabet the thread dictionaries are the ranges of the partition.  With more
    symbols than threads none of them faults, together they yield every word of the asked
    lengths plus one for each boundary two neighbours share, and each inner boundary is yielded
    by both of its neighbours.  With exactly as many symbols as threads the last two boundaries
    are the same word, so the last dictionary is empty and one shared word is lost.
  */
  lemma {:induction false} ForThreadsPartition(a: seq<char>, minLength: int, maxLength: int, threads: int)
    requires Ascending(a) && |a| >= 1 && 2 <= threads && 0 <= minLength <= maxLength && 1 <= maxLength
    ensures var lo := if minLength == 0 then 1 else minLength;
      var res := ForThreads(Some(a), minLength, maxLength, threads);
      res.Success? && IsPartition(res.value, a, lo, maxLength, threads) &&
      (threads < |a| ==>
        (forall i :: 0 <= i < threads ==> res.value[i].Success?) &&
        TotalSize(res.value) == PowerSum(|a|, lo, maxLength) + threads - 1 &&
        Shares(res.value, a, lo, maxLength, threads)) &&
      (threads == |a| ==>
        (forall i :: 0 <= i < threads ==> res.value[i].Success?) &&
        res.value[threads - 1] == Success([]) &&
        TotalSize(res.value) == PowerSum(|a|, lo, maxLength) + threads - 2)
  {
    var lo: nat := if minLength == 0 then 1 else minLength;
    var ds := Split(a, lo, maxLength, threads, RangeOf(a));
    ForThreadsIsSplit(a, minLength, maxLength, threads);
    SplitIsPartition(a, lo, maxLength, threads);
    if threads < |a| {
      PartitionTotal(ds, a, lo, maxLength, threads);
      PartitionShares(ds, a, lo, maxLength, threads);
    } else if threads == |a| {
      PartitionTotalFull(ds, a, lo, maxLength, threads);
    }
  }
}
