/**
  Symbols, alphabets and the string helpers the enumerators lean on: duplicate removal,
  first-occurrence lookup, spelling a digit vector, ordinal comparison and substring search.
*/
module Alphabet {
  /** The exceptions the enumerators raise, named after their .NET types. */
  datatype Error = ArgumentError | ArgumentNull | ArgumentOutOfRange | NullReference | IndexOutOfRange | NotSupported

  type Word = seq<char>

  /** `n` copies of `x` (`new string(c, n)` for a symbol, a repeated alphabet for a list). */
  function Repeat<T>(x: T, n: nat): (s: seq<T>)
    ensures |s| == n && forall i :: 0 <= i < n ==> s[i] == x
  {
    seq(n, _ => x)
  }

  /** No element occurs twice. */
  predicate Unique<T(==)>(s: seq<T>) {
    forall i, j :: 0 <= i < j < |s| ==> s[i] != s[j]
  }

  // ----- Enumerable.Distinct -----

  /** Each symbol at its first occurrence, in the order of first occurrence. */
  function Distinct(s: seq<char>): (d: seq<char>)
    ensures Unique(d) && |d| <= |s|
    ensures forall c :: c in d <==> c in s
    decreases |s|
  {
    if |s| == 0 then []
    else
      var p := Distinct(s[..|s| - 1]);
      assert s == s[..|s| - 1] + [s[|s| - 1]];
      if s[|s| - 1] in p then p else p + [s[|s| - 1]]
  }

  /** An alphabet without duplicates is left as it is. */
  lemma {:induction false} DistinctUnique(s: seq<char>)
    requires Unique(s)
    ensures Distinct(s) == s
    decreases |s|
  {
    if |s| > 0 {
      var n := |s|;
      DistinctUnique(s[..n - 1]);
      assert s[n - 1] !in s[..n - 1];
      assert s == s[..n - 1] + [s[n - 1]];
    }
  }

  /** Removing duplicates twice is removing them once. */
  lemma {:induction false} DistinctIdempotent(s: seq<char>)
    ensures Distinct(Distinct(s)) == Distinct(s)
  {
    DistinctUnique(Distinct(s));
  }

  // ----- String.IndexOf -----

  /** The position of the first occurrence of `c`. */
  function IndexOf(s: seq<char>, c: char): (i: nat)
    requires c in s
    ensures i < |s| && s[i] == c
    decreases |s|
  {
    if s[0] == c then 0
    else
      assert c in s[1..] by {
        var k :| 0 <= k < |s| && s[k] == c;
        assert s[1..][k - 1] == c;
      }
      IndexOf(s[1..], c) + 1
  }

  /** No earlier position holds `c`. */
  lemma {:induction false} IndexOfFirst(s: seq<char>, c: char)
    requires c in s
    ensures c !in s[..IndexOf(s, c)]
    decreases |s|
  {
    if s[0] != c {
      assert c in s[1..] by {
        var k :| 0 <= k < |s| && s[k] == c;
        assert s[1..][k - 1] == c;
      }
      var k := IndexOf(s[1..], c);
      IndexOfFirst(s[1..], c);
      assert s[..k + 1] == [s[0]] + s[1..][..k];
    }
  }

  /** In an alphabet without duplicates the lookup returns the symbol's own position. */
  lemma {:induction false} IndexOfUnique(s: seq<char>, i: nat)
    requires Unique(s) && i < |s|
    ensures IndexOf(s, s[i]) == i
  {
    var j := IndexOf(s, s[i]);
    assert s[j] == s[i];
  }

  // ----- spelling digit vectors -----

  /** `v` holds, at each position `i`, an index into `alphabets[i]`. */
  predicate Fits(alphabets: seq<seq<char>>, v: seq<nat>) {
    |v| <= |alphabets| && forall i :: 0 <= i < |v| ==> v[i] < |alphabets[i]|
  }

  /** The word whose symbol at position `i` is `alphabets[i][v[i]]`. */
  function Spell(alphabets: seq<seq<char>>, v: seq<nat>): (w: Word)
    requires Fits(alphabets, v)
    ensures |w| == |v|
    ensures forall i :: 0 <= i < |v| ==> w[i] == alphabets[i][v[i]]
  {
    seq(|v|, i requires 0 <= i < |v| => alphabets[i][v[i]])
  }

  /** Every symbol of `w` is in the alphabet of its position. */
  predicate Spellable(alphabets: seq<seq<char>>, w: Word) {
    |w| <= |alphabets| && forall i :: 0 <= i < |w| ==> w[i] in alphabets[i]
  }

  /** The digit vector of `w`: the first occurrence of each symbol in its position's alphabet. */
  function Digits(alphabets: seq<seq<char>>, w: Word): (v: seq<nat>)
    requires Spellable(alphabets, w)
    ensures |v| == |w| && Fits(alphabets, v)
  {
    seq(|w|, i requires 0 <= i < |w| => IndexOf(alphabets[i], w[i]))
  }

  /** Spelling the digits of a word gives the word back. */
  lemma {:induction false} SpellDigits(alphabets: seq<seq<char>>, w: Word)
    requires Spellable(alphabets, w)
    ensures Spell(alphabets, Digits(alphabets, w)) == w
  {
  }

  /** Over alphabets without duplicates, the digits of a spelled word are the vector spelled. */
  lemma {:induction false} DigitsSpell(alphabets: seq<seq<char>>, v: seq<nat>)
    requires Fits(alphabets, v) && forall i :: 0 <= i < |v| ==> Unique(alphabets[i])
    ensures Spellable(alphabets, Spell(alphabets, v)) && Digits(alphabets, Spell(alphabets, v)) == v
  {
    var w := Spell(alphabets, v);
    forall i | 0 <= i < |v|
      ensures w[i] in alphabets[i] && IndexOf(alphabets[i], w[i]) == v[i]
    {
      IndexOfUnique(alphabets[i], v[i]);
    }
  }

  /** Over alphabets without duplicates, distinct vectors spell distinct words. */
  lemma {:induction false} SpellInjective(alphabets: seq<seq<char>>, v: seq<nat>, u: seq<nat>)
    requires Fits(alphabets, v) && Fits(alphabets, u) && |v| == |u|
    requires forall i :: 0 <= i < |v| ==> Unique(alphabets[i])
    ensures Spell(alphabets, v) == Spell(alphabets, u) ==> v == u
  {
    DigitsSpell(alphabets, v);
    DigitsSpell(alphabets, u);
  }

  // ----- String.Compare(a, b, StringComparison.Ordinal) -----

  /** Ordinal order: symbol codes compared left to right, a proper prefix first. */
  predicate OrdinalLess(a: Word, b: Word)
    decreases |a|
  {
    if |b| == 0 then false
    else if |a| == 0 then true
    else if a[0] != b[0] then a[0] < b[0]
    else OrdinalLess(a[1..], b[1..])
  }

  /** `a` and `b` agree before `i` and `a` has the smaller symbol at `i`. */
  predicate DiffersAt(a: Word, b: Word, i: nat) {
    i < |a| && i < |b| && a[..i] == b[..i] && a[i] < b[i]
  }

  /** Ordinal order is dictionary order on symbol codes. */
  lemma {:induction false} OrdinalLessIff(a: Word, b: Word)
    ensures OrdinalLess(a, b) <==> (exists i :: DiffersAt(a, b, i)) || (|a| < |b| && a == b[..|a|])
    decreases |a|
  {
    if |a| > 0 && |b| > 0 {
      if a[0] != b[0] {
        if a[0] < b[0] {
          assert DiffersAt(a, b, 0);
        }
      } else {
        OrdinalLessIff(a[1..], b[1..]);
        if exists i :: DiffersAt(a, b, i) {
          var i: nat :| DiffersAt(a, b, i);
          assert i > 0;
          assert a[1..][..i - 1] == a[..i][1..] && b[1..][..i - 1] == b[..i][1..];
          assert DiffersAt(a[1..], b[1..], i - 1);
        }
        if exists i :: DiffersAt(a[1..], b[1..], i) {
          var i: nat :| DiffersAt(a[1..], b[1..], i);
          assert a[..i + 1] == [a[0]] + a[1..][..i] && b[..i + 1] == [b[0]] + b[1..][..i];
          assert DiffersAt(a, b, i + 1);
        }
        if |a| < |b| && a == b[..|a|] {
          assert a[1..] == b[1..][..|a| - 1];
        }
        if |a| - 1 < |b| - 1 && a[1..] == b[1..][..|a| - 1] {
          assert a == [a[0]] + a[1..] && b[..|a|] == [b[0]] + b[1..][..|a| - 1];
        }
      }
    }
  }

  /** A run of a symbol is not ordinal-before a run of the same or a smaller symbol that is no longer. */
  lemma {:induction false} RepeatNotLess(x: char, m: nat, y: char, n: nat)
    requires (x < y && n > 0) || (x == y && m <= n)
    ensures !OrdinalLess(Repeat(y, n), Repeat(x, m))
    decreases m
  {
    if m > 0 && n > 0 && x == y {
      assert Repeat(y, n)[1..] == Repeat(y, n - 1) && Repeat(x, m)[1..] == Repeat(x, m - 1);
      RepeatNotLess(x, m - 1, y, n - 1);
    }
  }

  // ----- string.Contains -----

  /** `sub` occurs in `w` starting at offset `o`. */
  predicate OccursAt(w: Word, sub: Word, o: nat) {
    o + |sub| <= |w| && w[o..o + |sub|] == sub
  }

  /** Ordinal substring search. */
  predicate Contains(w: Word, sub: Word)
    decreases |w|
  {
    |sub| <= |w| && (w[..|sub|] == sub || Contains(w[1..], sub))
  }

  /** The search finds exactly the offsets where the substring occurs. */
  lemma {:induction false} ContainsIff(w: Word, sub: Word)
    ensures Contains(w, sub) <==> exists o :: OccursAt(w, sub, o)
    decreases |w|
  {
    if |sub| <= |w| {
      if w[..|sub|] == sub {
        assert OccursAt(w, sub, 0);
      } else {
        ContainsIff(w[1..], sub);
        if exists o :: OccursAt(w[1..], sub, o) {
          var o: nat :| OccursAt(w[1..], sub, o);
          assert w[1..][o..o + |sub|] == w[o + 1..o + 1 + |sub|];
          assert OccursAt(w, sub, o + 1);
        }
        if exists o :: OccursAt(w, sub, o) {
          var o: nat :| OccursAt(w, sub, o);
          assert o > 0;
          assert w[1..][o - 1..o - 1 + |sub|] == w[o..o + |sub|];
          assert OccursAt(w[1..], sub, o - 1);
        }
      }
    }
  }

  /** A word made of a left part, the substring and a right part contains the substring. */
  lemma {:induction false} ContainsInfix(left: Word, sub: Word, right: Word)
    ensures Contains(left + sub + right, sub)
  {
    var w := left + sub + right;
    assert w[|left|..|left| + |sub|] == sub;
    assert OccursAt(w, sub, |left|);
    ContainsIff(w, sub);
  }
}
