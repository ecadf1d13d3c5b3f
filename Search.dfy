/**
  The sequential search of the forcers: try each word of the dictionary in order, with the
  caller's attempt function, and stop at the first one whose result the caller's predicate
  accepts.
*/
module Search {
  import opened Wrappers
  import opened Alphabet

  /** A word is accepted when the predicate holds of the attempt's result for it. */
  function Accepts<T>(attempt: Word -> T, hasSuccess: T -> bool): Word -> bool {
    w => hasSuccess(attempt(w))
  }

  /** The position of the first accepted word, or `|ws|` when none is accepted. */
  function FirstIndex(ws: seq<Word>, ok: Word -> bool): (k: nat)
    ensures k <= |ws|
    ensures k < |ws| ==> ok(ws[k])
    ensures forall j :: 0 <= j < k ==> !ok(ws[j])
    decreases |ws|
  {
    if |ws| == 0 then 0
    else if ok(ws[0]) then 0
    else
      var k := FirstIndex(ws[1..], ok);
      assert forall j :: 1 <= j < k + 1 ==> ws[j] == ws[1..][j - 1];
      k + 1
  }

  /** What the search returns: the first accepted word, or nothing. */
  function FirstMatch(ws: seq<Word>, ok: Word -> bool): Option<Word> {
    var k := FirstIndex(ws, ok);
    if k < |ws| then Some(ws[k]) else None
  }

  /** The words the search tries: those up to and including the winner, or all of them. */
  function Tried(ws: seq<Word>, ok: Word -> bool): seq<Word> {
    var k := FirstIndex(ws, ok);
    if k < |ws| then ws[..k + 1] else ws
  }

  /**
    The search finds a word exactly when some word is accepted; the word it finds is accepted
    and comes before every other accepted one.
  */
  lemma {:induction false} FirstMatchIff(ws: seq<Word>, ok: Word -> bool)
    ensures FirstMatch(ws, ok).Some? <==> exists i :: 0 <= i < |ws| && ok(ws[i])
    ensures FirstMatch(ws, ok).Some? ==>
      exists i :: 0 <= i < |ws| && ws[i] == FirstMatch(ws, ok).value && ok(ws[i]) &&
        forall j :: 0 <= j < i ==> !ok(ws[j])
  {
    var k := FirstIndex(ws, ok);
    if exists i :: 0 <= i < |ws| && ok(ws[i]) {
      var i :| 0 <= i < |ws| && ok(ws[i]);
      assert k <= i;
    }
  }

  /** Every tried word but the last is rejected; with no winner every word is tried. */
  lemma {:induction false} TriedRejected(ws: seq<Word>, ok: Word -> bool)
    ensures |Tried(ws, ok)| <= |ws| && Tried(ws, ok) == ws[..|Tried(ws, ok)|]
    ensures forall i :: 0 <= i < |Tried(ws, ok)| - 1 ==> !ok(Tried(ws, ok)[i])
    ensures FirstMatch(ws, ok).None? <==> Tried(ws, ok) == ws && forall i :: 0 <= i < |ws| ==> !ok(ws[i])
    ensures FirstMatch(ws, ok).Some? ==> |Tried(ws, ok)| >= 1 && FirstMatch(ws, ok).value == Tried(ws, ok)[|Tried(ws, ok)| - 1]
  {
    var k := FirstIndex(ws, ok);
    assert ws[..|ws|] == ws;
    if k < |ws| {
      assert Tried(ws, ok) != ws || ok(ws[k]);
    }
  }

  /**
    The foreach loop with its early break: the attempt is made on each word in turn, and the
    first word whose result is accepted is returned.  `tried` lists the words the attempt
    function was called with, in order.
  */
  method FirstSuccess<T>(ws: seq<Word>, attempt: Word -> T, hasSuccess: T -> bool)
    returns (found: Option<Word>, tried: seq<Word>)
    ensures found == FirstMatch(ws, Accepts(attempt, hasSuccess))
    ensures tried == Tried(ws, Accepts(attempt, hasSuccess))
  {
    ghost var ok := Accepts(attempt, hasSuccess);
    found := None;
    tried := [];
    var i := 0;
    while i < |ws|
      invariant i <= FirstIndex(ws, ok)
      invariant tried == ws[..i]
    {
      var result := attempt(ws[i]);
      tried := tried + [ws[i]];
      if hasSuccess(result) {
        assert ok(ws[i]);
        found := Some(ws[i]);
        assert tried == ws[..i + 1];
        return;
      }
      i := i + 1;
    }
    assert ws[..i] == ws;
  }
}
