/**
  The oldest revision, `BruteForcer.cs`: a forcer that is also a cursor over its dictionary.
  The constructor starts the enumeration and moves to the first word; `GetNextValue` hands out
  the word under the cursor and moves on; `IsNotFinished` says whether a word is left.  Its
  sequential search walks the whole dictionary afresh, without touching the cursor.  The
  static enumerators of this revision are those of `DictionaryForcer`.
*/
module LegacyForcer {
  import opened Wrappers
  import opened Alphabet
  import opened Search

  /** The forcer with its cursor over the enumerated dictionary. */
  class Cursor {
    /** The words the dictionary yields, in order. */
    var dictionary: seq<Word>
    /** The index of the word the enumerator stands on. */
    var position: nat
    /** Whether the last move of the enumerator reached a word. */
    var isNotFinished: bool
    /** The word handed out last. */
    var current: Option<Word>
    /** The words handed out so far. */
    ghost var returned: seq<Word>

    /** The cursor stands on a word exactly when one is left, and the words before it are those handed out. */
    ghost predicate Valid()
      reads this
    {
      position <= |dictionary| &&
      isNotFinished == (position < |dictionary|) &&
      returned == dictionary[..position]
    }

    /** A cursor before its first move. */
    constructor Start(words: seq<Word>)
      ensures Valid() && dictionary == words && position == 0 && returned == [] && current.None?
    {
      dictionary := words;
      position := 0;
      isNotFinished := |words| > 0;
      current := None;
      returned := [];
    }

    /**
      The constructor: a missing dictionary is an `ArgumentNull`, and a dictionary whose
      enumeration faults raises that fault at the first move; otherwise the cursor stands on
      the first word, if there is one.
    */
    static method Open(dictionary: Option<Result<seq<Word>, Error>>) returns (r: Result<Cursor, Error>)
      ensures r.Failure? <==> dictionary.None? || dictionary.value.Failure?
      ensures dictionary.None? ==> r == Failure(ArgumentNull)
      ensures dictionary.Some? && dictionary.value.Failure? ==> r == Failure(dictionary.value.error)
      ensures r.Success? ==> (fresh(r.value) && r.value.Valid() &&
        r.value.dictionary == dictionary.value.value && r.value.position == 0 &&
        r.value.returned == [] && (r.value.isNotFinished <==> |dictionary.value.value| > 0))
    {
      if dictionary.None? {
        return Failure(ArgumentNull);
      }
      if dictionary.value.Failure? {
        return Failure(dictionary.value.error);
      }
      var c := new Cursor.Start(dictionary.value.value);
      return Success(c);
    }

    /** Whether a word is left to hand out. */
    function IsNotFinished(): (r: bool)
      reads this
      requires Valid()
      ensures r <==> |returned| < |dictionary|
      ensures !r ==> returned == dictionary
    {
      isNotFinished
    }

    /**
      Hands out the word under the cursor and moves on.  While a word is left it is the next
      word of the dictionary and joins those handed out; past the end nothing is handed out
      and nothing moves.
    */
    method GetNextValue() returns (v: Option<Word>)
      requires Valid()
      modifies this
      ensures Valid() && dictionary == old(dictionary) && current == v
      ensures old(isNotFinished) ==> (v == Some(old(dictionary[position])) &&
        position == old(position) + 1 && returned == old(returned) + [v.value])
      ensures !old(isNotFinished) ==> (v.None? && position == old(position) && returned == old(returned))
    {
      if !isNotFinished {
        current := None;
        return None;
      }
      current := Some(dictionary[position]);
      returned := returned + [dictionary[position]];
      position := position + 1;
      isNotFinished := position < |dictionary|;
      assert dictionary[..position] == dictionary[..position - 1] + [dictionary[position - 1]];
      return current;
    }

    /**
      The sequential search over the whole dictionary: the first word whose attempt the
      predicate accepts, or nothing; `tried` lists the words the attempt was made on.
    */
    method BruteForceSingle<T>(attempt: Word -> T, hasSuccess: T -> bool) returns (found: Option<Word>, tried: seq<Word>)
      ensures found == FirstMatch(dictionary, Accepts(attempt, hasSuccess))
      ensures tried == Tried(dictionary, Accepts(attempt, hasSuccess))
    {
      found, tried := FirstSuccess(dictionary, attempt, hasSuccess);
    }
  }

  /**
    Handing out the words one by one reproduces the dictionary: the words handed out so far
    followed by those still to come are the whole dictionary.
  */
  lemma {:induction false} HandedOutPrefix(c: Cursor)
    requires c.Valid()
    ensures c.returned + c.dictionary[c.position..] == c.dictionary
  {
    assert c.dictionary[..c.position] + c.dictionary[c.position..] == c.dictionary;
  }
}
