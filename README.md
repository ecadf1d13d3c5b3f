# BruteForcer password enumerators, in Dafny

BruteForcer is a small C# library for dictionary attacks on passwords. It has two halves.

- **Enumerators** build a dictionary, which is a lazy sequence of candidate passwords. Each one drives an "odometer": a vector of alphabet indices (`charPass`) is changed in place. The last position sweeps through its alphabet. Then a carry loop resets the trailing maximal digits to 0 and increments the next digit. Lengths are visited in ascending order.
  - The *unbounded* enumerator yields every word of lengths `min..max` over one alphabet.
  - The *range* enumerator yields the words from a lower bound to an upper bound, inclusive.
  - The *per-position* enumerator gives each position its own alphabet. A short alphabet list is extended by repeating its last entry.
  - The two *substring* enumerators yield only words that hold a given substring.
- **Forcers** consume dictionaries.
  - A partitioner splits the space of one alphabet into N range dictionaries that share their boundary words.
  - A *forcer* tries each word of a dictionary in order and stops at the first word whose attempt succeeds.
  - The oldest revision is also a cursor (`GetNextValue` / `IsNotFinished`).

The repository holds several revisions of this code, and their validation rules differ. Each revision is its own module here:

| module | source file | what it holds |
|---|---|---|
| `Creator` | `BruteForcer/DictionaryOfPasswordsCreator.cs` | the newest enumerators and the split for threads |
| `MultiCore` | `BruteForcer/MultiCoreDictionaryBruteForcer.cs` | a forcer over one dictionary per core, and its partitioner |
| `DictionaryForcer` | `BruteForcer/DictionaryBruteForcer.cs` | the sequential forcer and the middle revision of the two enumerators |
| `LegacyForcer` | `BruteForcer/BruteForcer.cs` | the oldest forcer, with its cursor |

The static enumerators of `BruteForcer/BruteForcer.cs` (lines 177-253 and 262-358) have the same text as those of `BruteForcer/DictionaryBruteForcer.cs` (lines 52-128 and 137-234). Both files are modelled by the `DictionaryForcer` members.

The shared modules hold the machinery that all revisions use:

- `Wrappers`: `Option` and `Result`.
- `Alphabet`: duplicate removal, index lookup, spelling a digit vector, ordinal order, and substring search.
- `Odometer`: the digit-buffer loops on an `array<nat>`, proved against mixed-radix rank arithmetic.
- `Enumeration`: the word-level loops over the lengths.
- `Canonical` and `Uniform`: the order, membership and count of what a sweep yields.
- `Infix`: the loops of the substring enumerator.
- `Partitions`: the boundary words and the loop that builds the range dictionaries.
- `Search`: the foreach-with-break search.

`Examples` restates the figures that the unit tests in `UnitTestProjectForBruteForcer/UnitTestsForBruteForcer.cs` check over the 26 small letters, each proved from the general lemmas. It also works through the smallest partition with one core per symbol.

Each loop of the source is a `method` with its loop and invariants. It is proved equal to a specification function. The properties are lemmas about those functions.

A C# exception is a `Failure` value of an `Error` datatype that names the exception class. A dictionary is the `seq` of words it yields, or the exception its enumeration raises (`Result<seq<Word>, Error>`). A `null` argument is `None`.

Where the source's own promises (its doc comments and its unit tests) and its code disagree, the model follows the code:

- **Single-symbol alphabet.** The doc comment at BruteForcer/DictionaryOfPasswordsCreator.cs:126 promises `k^min + ... + k^max` words for an alphabet of `k` symbols. The code yields nothing when the deduplicated alphabet has one symbol: the sweep's guard sees the all-maximum vector at once. The count therefore holds only for `k >= 2`.
- **Per-position alphabets.** The same happens at each length whose last position has a one-symbol alphabet. That length loses its last candidate.
- **Range enumerator, equal bounds.** The doc comment at BruteForcer/DictionaryOfPasswordsCreator.cs:223 promises every word between the two bounds. When the start vector equals the end vector at some length, that length yields nothing. So equal bounds yield nothing.
- **Range enumerator, other edge cases.** An empty lower bound faults with an index out of range. So does a length whose start comes after its end, which can happen with an unsorted alphabet.
- **Partitioners, one range per symbol.** The unit test at UnitTestProjectForBruteForcer/UnitTestsForBruteForcer.cs:83 expects the N range dictionaries together to yield every word plus `N - 1` shared boundary words, and the code accepts any N up to the size of the alphabet. When N equals the number of symbols, the code puts boundary `N - 1` at index `(N - 1) * N / N`, which is the last symbol (BruteForcer/MultiCoreDictionaryBruteForcer.cs:84, BruteForcer/DictionaryOfPasswordsCreator.cs:108). That is the same word as the closing boundary (lines 88 and 112). The last dictionary therefore runs between two equal words and yields nothing, and the total is every word plus only `N - 2`.
- **Per-position enumerator over one alphabet.** The doc comment at BruteForcer/DictionaryOfPasswordsCreator.cs:351 promises that a list holding a single alphabet gives the unbounded enumerator's dictionary. That holds when the alphabet has no duplicates (`Creator.PerPositionSingle`). The unbounded enumerator removes duplicates (lines 158-159) and the per-position loops do not (lines 405-458). So over `"aa"` at length 1 the unbounded enumerator yields nothing and the per-position one yields `"a"` twice (`Creator.PerPositionSingleRepeats`).
- **Per-position substring enumerator over one alphabet.** The doc comment at line 606 makes the same promise for the substring variants. Over one alphabet with no duplicates and at least two symbols, the two yield the same words (`Creator.PerPositionWithSingle`). They are not the same sequence. The substring enumerator tries every offset and yields a word once per offset at which the substring occurs. The per-position one filters the per-position dictionary, so it yields each word once, in canonical order (`Creator.PerPositionWithSingleDiffers`).
- **Substring enumerator count.** The doc comment at line 492 repeats the unbounded count. The code yields `(L - s + 1) * k^(L - s)` words at each length `L` for a substring of `s` symbols, repeats included (`Creator.WithSubstringCount`).
- **Range enumerator, inner lengths.** Read against the same doc comment (line 223), the range is not the full enumeration filtered to `[A, B]`. Between the bounds' lengths every word of each length is yielded, whatever its order relative to the bounds.

## Model

| member | source | states |
|---|---|---|
| `Creator.CheckLengths` | BruteForcer/DictionaryOfPasswordsCreator.cs:130-146 | a negative length or a minimum above the maximum is an `ArgumentError`, and only those; `0, 0` asks for nothing; otherwise the lengths are `max(min, 1)..max` |
| `Creator.ValidateLengths` | BruteForcer/DictionaryOfPasswordsCreator.cs:130-146 | the statement form of the length checks returns the checks' verdict |
| `Creator.DistinctNonEmpty` | BruteForcer/DictionaryOfPasswordsCreator.cs:152-159 | a non-empty alphabet keeps at least one symbol after duplicate removal, without duplicates and with the same symbols |
| `Creator.MakeUnbounded` | BruteForcer/DictionaryOfPasswordsCreator.cs:127-219 | the checks, the length loop and the odometer sweep of each length yield exactly the unbounded dictionary |
| `Creator.UnboundedErrors` | BruteForcer/DictionaryOfPasswordsCreator.cs:130-155 | fails exactly on a negative length, a minimum above the maximum, or a missing or empty alphabet unless `0, 0` is asked for; only the missing alphabet is an `ArgumentNull`; `0, 0` yields nothing |
| `Creator.UnboundedCount` | BruteForcer/DictionaryOfPasswordsCreator.cs:125-219 | with `k >= 2` distinct symbols, exactly `k^lo + ... + k^max` words; with one distinct symbol, none |
| `Creator.UnboundedWords` | BruteForcer/DictionaryOfPasswordsCreator.cs:158-219 | the words come in canonical order (length, then code), so each at most once; every word yielded has an allowed length and is over the alphabet; with `k >= 2` every such word is yielded, and the last one is the last symbol repeated `max` times |
| `Creator.OverSplit` | BruteForcer/DictionaryOfPasswordsCreator.cs:242-250 | the symbol check of the two bounds' concatenation is the check of each bound |
| `Creator.MakeInRange` | BruteForcer/DictionaryOfPasswordsCreator.cs:231-343 | the checks, the symbol search over both bounds and the odometer run of each length yield exactly the range dictionary |
| `Creator.InRangeRejects` | BruteForcer/DictionaryOfPasswordsCreator.cs:233-256 | a missing argument is an `ArgumentNull`; an empty alphabet, a bound symbol outside the alphabet and an upper bound ordinal-before the lower one are `ArgumentError`s |
| `Creator.InRangeErrors` | BruteForcer/DictionaryOfPasswordsCreator.cs:266-343 | past the checks the range enumerator fails only with an index out of range, and exactly when the lower bound is empty or some length's start comes after its end |
| `Creator.InRangeWords` | BruteForcer/DictionaryOfPasswordsCreator.cs:266-343 | over distinct symbols the words come in canonical order; a word is yielded exactly when its length lies between the bounds' lengths and its code lies between the lower bound's code (at the lower bound's length only) and the upper bound's (at its length only), at a length whose start precedes its end; the count is the sum of the run sizes |
| `Creator.Padded` | BruteForcer/DictionaryOfPasswordsCreator.cs:411-423 | the extended list has `n` entries, or as many as `s` when it is longer, keeps the original entries, and repeats the last one after them |
| `Creator.AlphabetList.Extend` | BruteForcer/DictionaryOfPasswordsCreator.cs:411-423 | a growable caller's list is appended to in place, one copy of its last alphabet at a time, until it has `n` entries, and no earlier entry changes; a fixed-size list (an array passed as `IList`) is left unchanged and the extension fails exactly when it is shorter than `n` |
| `Creator.EntryError` | BruteForcer/DictionaryOfPasswordsCreator.cs:368-378 | no fault exactly when every entry is present and non-empty; a `NullReference` names a null entry, an `ArgumentError` an empty one |
| `Creator.CheckEntries` | BruteForcer/DictionaryOfPasswordsCreator.cs:368-378 | the foreach over the entries stops at the first bad entry with its fault |
| `Wrappers.Values` | BruteForcer/DictionaryOfPasswordsCreator.cs:406-409 | the entries of a list without null entries, one per entry and in order; also the dictionaries the multi-core constructor keeps |
| `Creator.ValidateList` | BruteForcer/DictionaryOfPasswordsCreator.cs:359-396 | the list checks, the entry checks and then the length checks, in the source's order |
| `Creator.MakePerPosition` | BruteForcer/DictionaryOfPasswordsCreator.cs:357-482 | yields exactly the per-position dictionary over the list extended to `max` entries, or `NotSupported` for a fixed-size list that is too short; leaves a growable caller's list extended once the checks pass |
| `Creator.PerPositionErrors` | BruteForcer/DictionaryOfPasswordsCreator.cs:359-423 | a missing list is an `ArgumentNull`, an empty list an `ArgumentError`, a null entry a `NullReference`; with good entries it fails exactly on bad lengths (`ArgumentError`) or on a fixed-size list with fewer than `max` alphabets (`NotSupported`) |
| `Creator.PerPositionFixedSize` | BruteForcer/DictionaryOfPasswordsCreator.cs:411-423 | both per-position enumerators over a fixed-size list equal those over a growable one, except for `NotSupported` when the checks pass and the list has fewer than `max` alphabets |
| `Creator.PerPositionCount` | BruteForcer/DictionaryOfPasswordsCreator.cs:432-481 | the words yielded plus one per length whose last alphabet has a single symbol equal the sum over the lengths of the products of the alphabet sizes |
| `Creator.PerPositionWords` | BruteForcer/DictionaryOfPasswordsCreator.cs:432-481 | with alphabets free of duplicates, no word comes twice; a word is yielded exactly when its length is allowed, its symbol at each position is in that position's alphabet, and the sweep of its length reaches its rank |
| `Creator.PerPositionSingle` | BruteForcer/DictionaryOfPasswordsCreator.cs:346-481 | a list holding one duplicate-free alphabet gives exactly the unbounded enumerator's result, errors included, for all lengths |
| `Creator.PerPositionSingleRepeats` | BruteForcer/DictionaryOfPasswordsCreator.cs:158-159 | over the one alphabet `"aa"` at length 1 the unbounded enumerator yields nothing and the per-position one yields `"a"` twice, so the two differ |
| `Creator.OverDistinct` | BruteForcer/DictionaryOfPasswordsCreator.cs:159 | a word is over the deduplicated alphabet exactly when it is over the alphabet |
| `Creator.UnboundedSide` | BruteForcer/DictionaryOfPasswordsCreator.cs:572-592 | the inner calls of the substring enumerator, asked for exactly `n` symbols, yield the side parts of length `n` |
| `Creator.StuckLoop` | BruteForcer/DictionaryOfPasswordsCreator.cs:582-585 | the innermost loop yields `l + sub + r` for each right part `r`, in order |
| `Creator.AroundLoop` | BruteForcer/DictionaryOfPasswordsCreator.cs:579-586 | the left loop yields every pair of left and right parts around the substring, left part outermost |
| `Creator.EndLoop` | BruteForcer/DictionaryOfPasswordsCreator.cs:589-596 | with no room on the right, each left part followed by the substring |
| `Creator.StartLoops` | BruteForcer/DictionaryOfPasswordsCreator.cs:563-576 | at offset 0, the substring alone when it fills the length, then the substring followed by each right part of the whole remaining length, in order |
| `Creator.FinishLoops` | BruteForcer/DictionaryOfPasswordsCreator.cs:588-596 | at the last offset, each left part of the whole remaining length followed by the substring, in order |
| `Creator.OffsetLoop` | BruteForcer/DictionaryOfPasswordsCreator.cs:561-596 | one offset yields the substring alone, the substring followed by each right part (offset 0), the parts on both sides, and each left part followed by the substring (last offset) |
| `Creator.LengthLoop` | BruteForcer/DictionaryOfPasswordsCreator.cs:556-597 | one length yields the offsets `0..L-s` in order, `s` being the substring's length |
| `Creator.SubstringLoop` | BruteForcer/DictionaryOfPasswordsCreator.cs:554-598 | the length loop yields the lengths `lo..hi` in order |
| `Creator.MakeWithSubstring` | BruteForcer/DictionaryOfPasswordsCreator.cs:493-598 | the checks and the loops yield exactly the substring dictionary |
| `Creator.WithSubstringErrors` | BruteForcer/DictionaryOfPasswordsCreator.cs:497-530 | fails exactly on a negative length, a minimum above the maximum, or a missing or empty alphabet or substring unless `0, 0` is asked for; a missing argument is an `ArgumentNull` |
| `Creator.ContainsOver` | BruteForcer/DictionaryOfPasswordsCreator.cs:541-549 | a word over the alphabet that holds the substring makes the substring a word over the alphabet, no longer than the word |
| `Creator.WithSubstringWords` | BruteForcer/DictionaryOfPasswordsCreator.cs:532-598 | every word yielded has a length in `max(min, s)..max`, is over the alphabet and holds the substring; with `k >= 2` every such word is yielded, so a substring that is too long or has a foreign symbol yields nothing, `s` being the substring's length |
| `Creator.WithSubstringCount` | BruteForcer/DictionaryOfPasswordsCreator.cs:554-598 | with `k >= 2`, each length `L` yields `(L - s + 1) * k^(L - s)` words, `s` being the substring's length |
| `Creator.WithSubstringSingle` | BruteForcer/DictionaryOfPasswordsCreator.cs:563-569 | with one distinct symbol only the substring itself is yielded, when its length is allowed |
| `Creator.WithSubstringRepeats` | BruteForcer/DictionaryOfPasswordsCreator.cs:559-596 | the offsets are not deduplicated: when twice the substring's length is allowed, the result repeats a word |
| `Creator.FilterLoop` | BruteForcer/DictionaryOfPasswordsCreator.cs:718-724 | the test of each swept password keeps exactly those that hold the substring, in order |
| `Creator.MakePerPositionWith` | BruteForcer/DictionaryOfPasswordsCreator.cs:616-749 | yields exactly the per-position substring dictionary; the caller's list is unchanged when the substring is missing or the list is fixed-size, and extended otherwise |
| `Creator.PerPositionWithErrors` | BruteForcer/DictionaryOfPasswordsCreator.cs:618-684 | fails exactly on the per-position checks (with their error), or, for lengths other than `0, 0`, on a missing substring (`ArgumentNull`) or a fixed-size list too short to extend (`NotSupported`); lengths `0, 0` yield nothing even without a substring |
| `Creator.ContainsEmpty` | BruteForcer/DictionaryOfPasswordsCreator.cs:721 | every word holds the empty substring |
| `Creator.FilterKeepsAll` | BruteForcer/DictionaryOfPasswordsCreator.cs:721 | the filter drops nothing when every word holds the substring |
| `Creator.PerPositionWithEmpty` | BruteForcer/DictionaryOfPasswordsCreator.cs:616-749 | with the empty substring, the per-position substring enumerator is the per-position enumerator |
| `Creator.FilterUnique` | BruteForcer/DictionaryOfPasswordsCreator.cs:718-724 | filtering a list without repeats leaves a list without repeats |
| `Creator.PerPositionWithWords` | BruteForcer/DictionaryOfPasswordsCreator.cs:695-749 | with alphabets free of duplicates, each word comes once, and a word is yielded exactly when the per-position enumerator yields it and it holds the substring |
| `Creator.PerPositionWithOrder` | BruteForcer/DictionaryOfPasswordsCreator.cs:695-749 | two kept words come from two positions of the per-position dictionary in the same order |
| `Creator.PerPositionWithSingle` | BruteForcer/DictionaryOfPasswordsCreator.cs:601-749 | over one duplicate-free alphabet of at least two symbols, the per-position substring enumerator and the substring enumerator both succeed and yield the same words |
| `Creator.PerPositionWithSingleDiffers` | BruteForcer/DictionaryOfPasswordsCreator.cs:559-596 | when twice the substring's length is allowed, the two are different sequences: one repeats a word, the other does not |
| `Creator.MakeForThreads` | BruteForcer/DictionaryOfPasswordsCreator.cs:49-118 | the checks and the loop over `minVal`/`maxVal` give exactly the split for threads |
| `Creator.ForThreadsErrors` | BruteForcer/DictionaryOfPasswordsCreator.cs:51-75 | fails exactly on a thread count below 1 (`ArgumentOutOfRange`), bad lengths, or a missing alphabet or (for several threads) an empty one, unless `0, 0` is asked for; the empty alphabet faults out of range |
| `Creator.ForThreadsCount` | BruteForcer/DictionaryOfPasswordsCreator.cs:59-84 | `0, 0` gives no dictionary; otherwise one per thread, and one thread gets the unbounded dictionary |
| `Creator.RangeIsPiece` | BruteForcer/DictionaryOfPasswordsCreator.cs:94 | over a sorted alphabet a range between neighbouring boundaries is that piece of the partition |
| `Creator.SplitAt` | BruteForcer/DictionaryOfPasswordsCreator.cs:88-116 | dictionary `i` of the split is the range enumerator between boundaries `i` and `i + 1` |
| `Creator.SplitIsPartition` | BruteForcer/DictionaryOfPasswordsCreator.cs:88-116 | over a sorted alphabet the split is the partition |
| `Creator.ForThreadsIsSplit` | BruteForcer/DictionaryOfPasswordsCreator.cs:86-116 | several threads over a non-empty alphabet get the split, with a minimum of 0 read as 1 |
| `Creator.ForThreadsPartition` | BruteForcer/DictionaryOfPasswordsCreator.cs:86-116 | over a sorted alphabet with more symbols than threads, no dictionary faults; together they yield the whole space plus `threads - 1` shared words; each inner boundary is yielded by both neighbours; with exactly as many symbols as threads, the last dictionary is empty and the total is the whole space plus `threads - 2` |
| `MultiCore.Create` | BruteForcer/MultiCoreDictionaryBruteForcer.cs:17-33 | fails, with `ArgumentNull`, exactly on a missing list or a missing dictionary in it; otherwise stores the list unchanged |
| `MultiCore.MakeCreate` | BruteForcer/MultiCoreDictionaryBruteForcer.cs:17-33 | the foreach over the dictionaries gives the constructor's verdict |
| `MultiCore.MakeForCores` | BruteForcer/MultiCoreDictionaryBruteForcer.cs:42-94 | the checks and the loop over `minVal`/`maxVal` give exactly the partitioner's list |
| `MultiCore.ForCoresErrors` | BruteForcer/MultiCoreDictionaryBruteForcer.cs:44-59 | fails exactly on a core count below 1, a length below 1, a minimum above the maximum, a missing alphabet, or an empty one with several cores; only the core count is an `ArgumentOutOfRange` |
| `MultiCore.ForCoresCount` | BruteForcer/MultiCoreDictionaryBruteForcer.cs:61-90 | one dictionary per core; one core gets the unbounded dictionary of this revision |
| `MultiCore.OldSplitAt` | BruteForcer/MultiCoreDictionaryBruteForcer.cs:70-90 | dictionary `i` of the split is this revision's range enumerator between boundaries `i` and `i + 1` |
| `MultiCore.SplitSame` | BruteForcer/MultiCoreDictionaryBruteForcer.cs:70-90 | the split made with this revision's range enumerator equals the split made with the newer one |
| `MultiCore.ForCoresAgrees` | BruteForcer/MultiCoreDictionaryBruteForcer.cs:42-94 | for lengths of at least 1 and a non-empty alphabet, the partitioner gives the same list as the newer split for threads |
| `MultiCore.ForCoresPartition` | BruteForcer/MultiCoreDictionaryBruteForcer.cs:70-90 | over a sorted alphabet with more symbols than cores, the list is the partition; no dictionary faults; the sizes sum to the whole space plus `cores - 1`; each inner boundary is yielded by both neighbours |
| `MultiCore.ForCoresOnePerSymbol` | BruteForcer/MultiCoreDictionaryBruteForcer.cs:70-90 | over a sorted alphabet with exactly as many symbols as cores, the list is the partition; no dictionary faults; the last one is empty; the sizes sum to the whole space plus `cores - 2` |
| `DictionaryForcer.Create` | BruteForcer/DictionaryBruteForcer.cs:17-25 | fails, with `ArgumentNull`, exactly on a missing dictionary; otherwise stores it |
| `DictionaryForcer.BruteForce` | BruteForcer/DictionaryBruteForcer.cs:27-43 | returns the first word whose attempt succeeds, or nothing; the attempt is made on exactly the words tried; a faulting dictionary passes its fault on |
| `DictionaryForcer.BruteForceFinds` | BruteForcer/DictionaryBruteForcer.cs:31-39 | a word is found exactly when some word is accepted; it is accepted, no earlier word is, and the words tried are those up to it; with no winner every word is tried |
| `DictionaryForcer.DistinctEmpty` | BruteForcer/DictionaryBruteForcer.cs:67-72 | duplicate removal leaves no symbol only of an empty alphabet |
| `DictionaryForcer.OverNothing` | BruteForcer/DictionaryBruteForcer.cs:137-174 | over the empty alphabet only the empty word qualifies as a bound |
| `DictionaryForcer.MakeOldUnbounded` | BruteForcer/BruteForcer.cs:177-253 | the checks, duplicate removal and the odometer sweeps yield exactly this revision's unbounded dictionary (the same text as BruteForcer/DictionaryBruteForcer.cs:52-128) |
| `DictionaryForcer.OldUnboundedErrors` | BruteForcer/DictionaryBruteForcer.cs:54-67 | fails exactly on a length below 1, a minimum above the maximum, a missing alphabet, or an empty one; only the missing one is an `ArgumentNull`, only the empty one an `IndexOutOfRange` |
| `DictionaryForcer.OldUnboundedAgrees` | BruteForcer/DictionaryBruteForcer.cs:52-128 | for lengths of at least 1 and a non-empty alphabet, this revision agrees with the newer one; a minimum of 0 is rejected here but read as 1 there |
| `DictionaryForcer.OldUnboundedWords` | BruteForcer/DictionaryBruteForcer.cs:51-127 | with `k >= 2`, exactly `k^min + ... + k^max` words, in canonical order and each once; the last one is the last symbol repeated `max` times; exactly the words of allowed lengths over the alphabet are yielded |
| `DictionaryForcer.MakeOldRange` | BruteForcer/BruteForcer.cs:262-358 | the checks and the odometer runs yield exactly this revision's range dictionary (the same text as BruteForcer/DictionaryBruteForcer.cs:137-234) |
| `DictionaryForcer.OldRangeAgrees` | BruteForcer/DictionaryBruteForcer.cs:139-146 | with bound symbols in a non-empty alphabet, this revision agrees with the newer one; over the empty alphabet it faults out of range where the newer one rejects the alphabet |
| `DictionaryForcer.OldRangeWords` | BruteForcer/DictionaryBruteForcer.cs:155-234 | inclusive at both ends: over distinct symbols the words come in canonical order, their count is the sum of the run sizes, and exactly the words between the bounds are yielded, as for the newer range enumerator |
| `LegacyForcer.Cursor.Start` | BruteForcer/BruteForcer.cs:40-43 | a started cursor stands on the first word, with nothing handed out |
| `LegacyForcer.Cursor.Open` | BruteForcer/BruteForcer.cs:32-44 | a missing dictionary is an `ArgumentNull`; a faulting one raises its fault at the first move; otherwise a fresh cursor on the dictionary, not finished exactly when the dictionary is non-empty |
| `LegacyForcer.Cursor.IsNotFinished` | BruteForcer/BruteForcer.cs:80-86 | true exactly when fewer words have been handed out than the dictionary holds; once false, every word has been handed out |
| `LegacyForcer.Cursor.GetNextValue` | BruteForcer/BruteForcer.cs:88-94 | while not finished, hands out the next word of the dictionary and adds it to those handed out; the cursor stays consistent |
| `LegacyForcer.Cursor.BruteForceSingle` | BruteForcer/BruteForcer.cs:123-139 | returns the first word whose attempt succeeds, or nothing, having made the attempt on exactly the words up to it |
| `LegacyForcer.HandedOutPrefix` | BruteForcer/BruteForcer.cs:88-94 | the words handed out, followed by those still to come, are the whole dictionary |
| `Search.FirstSuccess` | BruteForcer/DictionaryBruteForcer.cs:29-42 | the foreach with its early break returns the first accepted word and the words tried |
| `Search.FirstIndex` | BruteForcer/DictionaryBruteForcer.cs:31-39 | the winner's position is accepted and no earlier word is |
| `Search.FirstMatchIff` | BruteForcer/DictionaryBruteForcer.cs:31-39 | a word is found exactly when some word is accepted |
| `Search.TriedRejected` | BruteForcer/DictionaryBruteForcer.cs:31-39 | the words tried are a prefix of the dictionary, all rejected but the last; with no winner they are the whole dictionary |
| `Alphabet.Distinct` | BruteForcer/DictionaryOfPasswordsCreator.cs:159 | the deduplicated alphabet has the same symbols, each once |
| `Alphabet.DistinctUnique` | BruteForcer/DictionaryOfPasswordsCreator.cs:159 | an alphabet without duplicates is left as it is |
| `Alphabet.DistinctIdempotent` | BruteForcer/DictionaryOfPasswordsCreator.cs:159 | removing the duplicates twice is removing them once |
| `Alphabet.IndexOf` | BruteForcer/DictionaryOfPasswordsCreator.cs:275 | the lookup of a symbol of the alphabet returns a position holding it |
| `Alphabet.IndexOfFirst` | BruteForcer/DictionaryOfPasswordsCreator.cs:284 | the lookup returns the first position holding the symbol |
| `Alphabet.IndexOfUnique` | BruteForcer/DictionaryOfPasswordsCreator.cs:284 | in an alphabet without duplicates the lookup returns the symbol's own position |
| `Alphabet.Spell` | BruteForcer/DictionaryOfPasswordsCreator.cs:193-195 | the spelled word has one symbol per digit of the vector, and the symbol at each position is the one its digit selects from that position's alphabet |
| `Alphabet.SpellDigits` | BruteForcer/DictionaryOfPasswordsCreator.cs:302-304 | spelling the looked-up digits of a word gives the word back |
| `Alphabet.DigitsSpell` | BruteForcer/DictionaryOfPasswordsCreator.cs:302-304 | over alphabets without duplicates, looking up a spelled word gives the vector back |
| `Alphabet.SpellInjective` | BruteForcer/DictionaryOfPasswordsCreator.cs:193-195 | over alphabets without duplicates, distinct vectors spell distinct words |
| `Alphabet.OrdinalLessIff` | BruteForcer/DictionaryOfPasswordsCreator.cs:253 | ordinal order is dictionary order on symbol codes, a proper prefix first |
| `Alphabet.ContainsIff` | BruteForcer/DictionaryOfPasswordsCreator.cs:721 | the substring search succeeds exactly when the substring occurs at some offset |
| `Alphabet.ContainsInfix` | BruteForcer/DictionaryOfPasswordsCreator.cs:584 | a left part, the substring and a right part together hold the substring |
| `Odometer.Unrank` | BruteForcer/DictionaryOfPasswordsCreator.cs:185-218 | the digit vector of a given rank is a digit vector with that rank |
| `Odometer.UnrankRank` | BruteForcer/DictionaryOfPasswordsCreator.cs:185-218 | ranking and unranking are inverse |
| `Odometer.RankInjective` | BruteForcer/DictionaryOfPasswordsCreator.cs:185-218 | distinct digit vectors have distinct ranks |
| `Odometer.RankTopOnly` | BruteForcer/DictionaryOfPasswordsCreator.cs:185 | only the all-maximum vector has the largest rank, so the sweep's guard stops exactly there |
| `Odometer.LexIffRank` | BruteForcer/DictionaryOfPasswordsCreator.cs:185-218 | rank order is the dictionary order of digit vectors |
| `Odometer.SpanOrdered` | BruteForcer/DictionaryOfPasswordsCreator.cs:185-218 | the vectors of a run of ranks come in strictly increasing dictionary order |
| `Odometer.ResetTrailing` | BruteForcer/DictionaryOfPasswordsCreator.cs:206-214 | the reset loop turns the trailing maximal digits to 0 and leaves the others; it reports whether a non-maximal digit is left |
| `Odometer.Carry` | BruteForcer/DictionaryOfPasswordsCreator.cs:205-217 | one carry step maps a vector that is not all-maximum to the vector of the next rank, never indexing below position 0; on the all-maximum vector it reports the overflow |
| `Odometer.CarryTrailing` | BruteForcer/DictionaryOfPasswordsCreator.cs:209-217 | resetting the trailing maximal digits and incrementing the next one is the mixed-radix successor |
| `Odometer.SweepFull` | BruteForcer/DictionaryOfPasswordsCreator.cs:188-196 | the last position runs through its whole alphabet, emitting the next run of ranks |
| `Odometer.SweepBlock` | BruteForcer/DictionaryOfPasswordsCreator.cs:185-218 | one pass of the outer loop emits a run of consecutive ranks and then carries or stops at the top |
| `Odometer.SweepLength` | BruteForcer/DictionaryOfPasswordsCreator.cs:172-218 | one length emits the vectors of ranks `0..SweepCount - 1` in order: all of them, or all but the top one when the last radix is 1 |
| `Odometer.SweepLast` | BruteForcer/DictionaryOfPasswordsCreator.cs:297-311 | the inner loop of the range enumerator emits the run of ranks from the current vector to where it stops, never past the end vector when it starts before it, and reports exactly whether it stopped on the end vector |
| `Odometer.CarryFault` | BruteForcer/DictionaryOfPasswordsCreator.cs:321-333 | a carry from the all-maximum vector that never met the end vector means the end lies before the start |
| `Odometer.RangeBlock` | BruteForcer/DictionaryOfPasswordsCreator.cs:294-342 | one pass of the range enumerator's outer loop, with its three final-vector checks, emits a run of consecutive ranks |
| `Odometer.SweepRange` | BruteForcer/DictionaryOfPasswordsCreator.cs:268-342 | one length of the range enumerator emits the vectors from the start vector to the end vector inclusive, nothing when they are equal, and faults when the start comes after the end |
| `Enumeration.SweepWords` | BruteForcer/DictionaryOfPasswordsCreator.cs:170-219 | the length loop yields every length's sweep, spelled, in ascending length |
| `Enumeration.RangeLength` | BruteForcer/DictionaryOfPasswordsCreator.cs:268-342 | one length of the range enumerator as a loop either faults out of range, as the whole range then does, or yields the words that come before the later lengths' words |
| `Enumeration.SweepRangeWords` | BruteForcer/DictionaryOfPasswordsCreator.cs:266-343 | the length loop of the range enumerator yields each length's run, or the first fault |
| `Canonical.WordsOrdered` | BruteForcer/DictionaryOfPasswordsCreator.cs:432-481 | the words come by length, then by digit vector |
| `Canonical.WordsUnique` | BruteForcer/DictionaryOfPasswordsCreator.cs:432-481 | over alphabets without duplicates no word comes twice |
| `Canonical.WordsMember` | BruteForcer/DictionaryOfPasswordsCreator.cs:432-481 | exactly the words of allowed lengths, spellable position by position, whose rank the sweep of their length reaches |
| `Canonical.WordsCount` | BruteForcer/DictionaryOfPasswordsCreator.cs:432-481 | every candidate is yielded but the last one of each length whose last alphabet has one symbol |
| `Canonical.UniformCount` | BruteForcer/DictionaryOfPasswordsCreator.cs:125-219 | one alphabet of `k >= 2` distinct symbols yields `k^lo + ... + k^hi` words |
| `Canonical.RangeFault` | BruteForcer/DictionaryOfPasswordsCreator.cs:266-343 | the range enumerator faults exactly when the lower bound is empty or some length's start comes after its end |
| `Canonical.RangeMember` | BruteForcer/DictionaryOfPasswordsCreator.cs:266-343 | the words yielded from a length on are exactly those whose code lies between that length's start and end |
| `Canonical.RangeCount` | BruteForcer/DictionaryOfPasswordsCreator.cs:266-343 | a range without a fault yields the sum of its lengths' run sizes |
| `Canonical.BoundsAt` | BruteForcer/DictionaryOfPasswordsCreator.cs:271-285 | the lower bound counts only at its own length, the upper bound only at its own length |
| `Uniform.UniformWordsCount` | BruteForcer/DictionaryOfPasswordsCreator.cs:125-219 | with `k >= 2` symbols the lengths `lo..hi` yield `k^lo + ... + k^hi` words; one symbol yields none |
| `Uniform.UniformWordsMember` | BruteForcer/DictionaryOfPasswordsCreator.cs:170-219 | every word yielded has an allowed length and is over the alphabet; with `k >= 2` every such word is yielded |
| `Uniform.UniformWordsOrdered` | BruteForcer/DictionaryOfPasswordsCreator.cs:170-219 | by ascending length, and within a length by ascending code |
| `Uniform.UniformWordsUnique` | BruteForcer/DictionaryOfPasswordsCreator.cs:170-219 | no word is yielded twice |
| `Uniform.UniformWordsLast` | BruteForcer/DictionaryOfPasswordsCreator.cs:175-185 | with `k >= 2` the last word is the last symbol repeated `hi` times |
| `Uniform.RangeOrdered` | BruteForcer/DictionaryOfPasswordsCreator.cs:266-343 | the range enumerator yields its words in canonical order, so each at most once, none shorter than the starting length and all over the alphabet |
| `Infix.AroundCount` | BruteForcer/DictionaryOfPasswordsCreator.cs:579-586 | the two nested loops try every pair of left and right parts |
| `Infix.AroundMember` | BruteForcer/DictionaryOfPasswordsCreator.cs:579-586 | a word comes out of the two loops exactly when it splits into a left part, the substring and a right part |
| `Infix.SideMember` | BruteForcer/DictionaryOfPasswordsCreator.cs:572-592 | the parts of one length are exactly the words of that length over the alphabet; one symbol yields none |
| `Infix.SideCount` | BruteForcer/DictionaryOfPasswordsCreator.cs:572-592 | with `k >= 2` there are `k^n` parts of length `n >= 1` |
| `Infix.LoopsArePlace` | BruteForcer/DictionaryOfPasswordsCreator.cs:561-596 | because the unbounded enumerator yields nothing of length 0, the three loops of one offset produce the words placed at that offset |
| `Infix.AtLengthShape` | BruteForcer/DictionaryOfPasswordsCreator.cs:556-597 | one length yields words of that length over the alphabet that hold the substring |
| `Infix.AtLengthComplete` | BruteForcer/DictionaryOfPasswordsCreator.cs:556-597 | with `k >= 2`, one length yields every word of that length over the alphabet that holds the substring |
| `Infix.AtLengthCount` | BruteForcer/DictionaryOfPasswordsCreator.cs:556-597 | with `k >= 2`, length `L` yields `(L - s + 1) * k^(L - s)` words, `s` being the substring's length |
| `Infix.SubstringMember` | BruteForcer/DictionaryOfPasswordsCreator.cs:554-598 | exactly the words of allowed lengths over the alphabet that hold the substring, when `k >= 2` |
| `Infix.SubstringCount` | BruteForcer/DictionaryOfPasswordsCreator.cs:554-598 | one block of `k^(L - s)` words per offset and length, duplicates included, `s` being the substring's length |
| `Infix.SubstringSingle` | BruteForcer/DictionaryOfPasswordsCreator.cs:563-569 | with one symbol only the substring itself comes out, when its length is in range |
| `Infix.SubstringRepeats` | BruteForcer/DictionaryOfPasswordsCreator.cs:559-596 | the substring written twice comes out twice when that length is in range |
| `Infix.FilterMember` | BruteForcer/DictionaryOfPasswordsCreator.cs:721-724 | the filter keeps exactly the words that hold the substring |
| `Infix.FilterPair` | BruteForcer/DictionaryOfPasswordsCreator.cs:721-724 | the filter keeps its input's order |
| `Partitions.BoundAt` | BruteForcer/MultiCoreDictionaryBruteForcer.cs:71-88 | every boundary index is a valid index into the alphabet |
| `Partitions.BoundAtMono` | BruteForcer/MultiCoreDictionaryBruteForcer.cs:71-88 | the boundary indices never decrease |
| `Partitions.BoundAtStrict` | BruteForcer/MultiCoreDictionaryBruteForcer.cs:71-88 | with at least as many symbols as ranges the boundary indices strictly increase, except the last two when there are exactly as many ranges as symbols |
| `Partitions.Boundary` | BruteForcer/MultiCoreDictionaryBruteForcer.cs:70-88 | every boundary word is over the alphabet |
| `Partitions.SplitRanges` | BruteForcer/MultiCoreDictionaryBruteForcer.cs:70-90 | the loop adds one range per part, range `i` being the range between boundaries `i` and `i + 1` |
| `Partitions.BoundariesOrdered` | BruteForcer/MultiCoreDictionaryBruteForcer.cs:75-88 | over a sorted alphabet no upper bound comes ordinal-before its lower bound, so no range is rejected |
| `Partitions.PieceSucceeds` | BruteForcer/MultiCoreDictionaryBruteForcer.cs:75-88 | over a sorted alphabet with at least as many symbols as ranges, every range yields without a fault |
| `Partitions.FirstPiece` | BruteForcer/MultiCoreDictionaryBruteForcer.cs:70-77 | the first range yields as many words as the lengths below the top hold, plus the top-length codes up to boundary 1 |
| `Partitions.PartitionTotal` | BruteForcer/MultiCoreDictionaryBruteForcer.cs:70-90 | the ranges together yield the whole space plus one word per inner boundary |
| `Partitions.LastBoundaries` | BruteForcer/MultiCoreDictionaryBruteForcer.cs:82-89 | with as many ranges as symbols, the last inner boundary and the closing boundary are both the last symbol repeated |
| `Partitions.LastPieceEmpty` | BruteForcer/MultiCoreDictionaryBruteForcer.cs:75-89 | with as many ranges as symbols, the last range yields nothing and does not fault |
| `Partitions.PartitionTotalFull` | BruteForcer/MultiCoreDictionaryBruteForcer.cs:70-90 | over a sorted alphabet with as many symbols as ranges, no range faults, the last is empty, and together they yield the whole space plus only `parts - 2` words |
| `Partitions.BoundaryEnds` | BruteForcer/MultiCoreDictionaryBruteForcer.cs:77-80 | each inner boundary is yielded by the range before it |
| `Partitions.BoundaryStarts` | BruteForcer/MultiCoreDictionaryBruteForcer.cs:77-80 | each inner boundary is yielded by the range after it |
| `Partitions.SharedBoundary` | BruteForcer/MultiCoreDictionaryBruteForcer.cs:77-80 | neighbouring ranges share their common boundary |
| `Partitions.PartitionShares` | BruteForcer/MultiCoreDictionaryBruteForcer.cs:77-80 | every inner boundary of the partition is yielded by both neighbours |
| `Examples.SameLengthCount` | BruteForcer/DictionaryBruteForcer.cs:137-234 | over distinct symbols, bounds of one length whose codes increase yield `Code(max) - Code(min) + 1` words: exactly the words of that length whose codes lie from the lower bound's to the upper bound's, both included |
| `Examples.LastOnlyAtEnd` | BruteForcer/DictionaryBruteForcer.cs:52-128 | over distinct symbols the last symbol repeated `max` times is the last word of the unbounded dictionary and appears nowhere before it |
| `Examples.FindsMember` | BruteForcer/DictionaryBruteForcer.cs:27-43 | the search over the unbounded dictionary with the identity attempt and an equality check finds the word sought when its length is allowed |
| `Examples.LastOfUnbounded` | UnitTestProjectForBruteForcer/UnitTestsForBruteForcer.cs:14-28 | over `a..z` from length 2 to 5, `zzzzz` is word number `26^2 + 26^3 + 26^4 + 26^5`, the last and only place it appears |
| `Examples.FindsPassword` | UnitTestProjectForBruteForcer/UnitTestsForBruteForcer.cs:32-45 | searching the words of length 1 to 10 over `a..z` for `xzasw` returns `xzasw` |
| `Examples.RangeFromFirst` | UnitTestProjectForBruteForcer/UnitTestsForBruteForcer.cs:53-56 | the range from `aa` to `az` yields 26 words |
| `Examples.RangeFromThird` | UnitTestProjectForBruteForcer/UnitTestsForBruteForcer.cs:59-62 | the range from `ac` to `az` yields 24 words |
| `Examples.CoresAsSymbols` | BruteForcer/MultiCoreDictionaryBruteForcer.cs:82-89 | two cores over `ab` at length 1: the second dictionary is empty and two words come out in all |
| `Examples.FiveCores` | UnitTestProjectForBruteForcer/UnitTestsForBruteForcer.cs:71-84 | five cores over `a..z` from length 2 to 5 give five dictionaries that together yield `26^2 + 26^3 + 26^4 + 26^5 + 4` words |

## Left out

- Parallel searches: the `Parallel.ForEach` searches (`BruteForce` and `BruteForceAsync` in BruteForcer/BruteForcer.cs:103-120 and 148-165) are not modelled. They exist for their concurrency, and they write the result without synchronisation.
- `SetDictionariesOfPasswords` (BruteForcer/BruteForcer.cs:47-78) is not modelled. It adds to a field that is never initialised and has an empty loop.
- `MultiCoreDictionaryBruteForcer.BruteForce` (BruteForcer/MultiCoreDictionaryBruteForcer.cs:96-99) is not modelled. It only throws `NotImplementedException`.
- The interface in BruteForcer/IBruteForcer.cs is not modelled. It declares signatures and has no logic.
- The alphabet presets (BruteForcer/DictionaryOfPasswordsCreator.cs:11-40) are not modelled. They are constant data.
- Iterator laziness is not modelled. A C# `yield` method validates its arguments at the first `MoveNext`, not at the call. A dictionary here is its whole result: the words it yields, or the exception it raises.
  - The words yielded before a fault are not kept. So `DictionaryForcer.BruteForce` over a dictionary that faults late returns the fault in the model. In the source it returns a winner yielded before the fault.
  - For the same reason `LegacyForcer.Cursor.Open` fails in the model on any faulting dictionary. In the source it succeeds when the fault comes after the first word, and the fault surfaces later from `GetNextValue`.
  - The fault is raised before any word, and the cost of enumeration is not modelled.
- Because of that laziness, the `try`/`catch` around each range dictionary in BruteForcer/DictionaryOfPasswordsCreator.cs:92-99 never catches anything. The model reflects this: a faulting range stays a faulting dictionary inside the list.
- `Partitions.BoundAt` computes the inner boundary index `i * len / parts` on unbounded integers. The source computes `(i + 1) * alphabet.Length` in 32-bit `int` (BruteForcer/MultiCoreDictionaryBruteForcer.cs:84, BruteForcer/DictionaryOfPasswordsCreator.cs:108). That product wraps once the number of ranges times the alphabet's size exceeds 2^31, and the alphabet would then be indexed at a negative position. The wrap is not modelled.
- `char` arithmetic on indices is not modelled. The source stores alphabet indices in `char`, so alphabets of more than 65535 symbols overflow. Indices are unbounded naturals here.
- `DictionaryForcer.OldRange` requires every bound symbol to be in the alphabet, because this revision never checks it. The source would then see `IndexOf` return -1 and cast it to `char`, and that behaviour is not modelled.
- `DictionaryForcer.OldRange`: the middle revision compares the bounds with the culture-sensitive `CompareTo`. The model compares them ordinally, as the newest revision does.
- `LegacyForcer.Cursor.GetNextValue`: past the end the model returns nothing. The source returns whatever the finished enumerator's `Current` holds.
- `LegacyForcer.Cursor.BruteForceSingle` walks the stored word sequence. The source re-enumerates the `IEnumerable`, which would be a second enumeration for a lazy dictionary.
- `Creator.MakePerPositionWith` tests the substring on the word sequence after each length's sweep. The source tests each password inside the sweep. The order and the words kept are the same.
- `Creator.MakePerPosition` reads the per-position maxima (`maxElements`) as the radices of the extended list, not as a list of its own. The model does not build a separate `maxElements` list.
- `DictionaryForcer.OldRangeWords` is not instantiated for the third range figure of the unit tests (`aa` to `ezzzb`, UnitTestProjectForBruteForcer/UnitTestsForBruteForcer.cs:66-68). That count spans four lengths over a 26-letter alphabet, and the verifier cannot close that concrete instance at reasonable cost. The general run-size sum that the lemma states for any bounds covers it.
