# Classical cipher kernels of py-crypttools, in Dafny

This project models the computational core of three small cryptanalysis
tools for classical ciphers. In all three, ciphertext and key letters are
uppercase ASCII and plaintext letters are lowercase ASCII.

- **Vigenère (`vig.py`).**
  - The key object `Vigkey` is a small state machine. A cursor walks the key
    word. In stream mode a drift is added to every letter and grows by one
    each time the cursor rolls over.
  - The decryption consumes the key stream.
  - `divideIntoSubstrings` deals a ciphertext into n columns. In stream mode
    it first lowers each block by its block number.
  - The index of coincidence is computed for every column.
  - The frequency-analysis search for candidate keys scores every shift of
    every column against a letter-frequency table. It keeps the letters
    whose score lies in the band (0.06, 0.07), or all 26 letters when none
    does, and builds the cross product of the letter sets.
  - The exhaustive key search skips keys whose two halves are equal and
    reports the keys whose decryption contains every keyword.
- **Substitution (`sub.py`).**
  - The key is a dictionary from the 26 cipher letters to plaintext
    characters. It starts as the identity.
  - `manipulateSubKey` edits it by a swap.
  - Decryption is a lookup per character.
  - The brute force pairs the cipher letters still unknown with the
    lowercase letters still free, once per permutation.
- **Affine (`aff.py`).**
  - `computeInverse` is a linear search for a modular inverse, which returns
    1 when none is found.
  - Decryption computes `((c - b - 65) mod 26) * a^-1 mod 26`.
  - The brute force filters the multipliers a with `computeInverse` modulo 26.

Modules, one per file:

| module | file | models |
|---|---|---|
| `Common` | common.dfy | exceptions, ASCII letter classes, the keyword test shared by all brute forces, first-occurrence deduplication |
| `Arith` | arith.dfy | division and remainder facts used by the proofs |
| `VigKey` | vigkey.dfy | class `Vigkey` and the key stream it emits |
| `VigDecrypt` | vigdecrypt.dfy | `decryptVigCipher`, the encryption it undoes |
| `Segment` | segment.dfy | `divideIntoSubstrings` |
| `Coincidence` | coincidence.dfy | symbol counts and `findIndicesOfCoincidence` |
| `Candidates` | candidates.dfy | `findPossibleKeys` and `buildKeys` |
| `VigSearch` | vigsearch.dfy | the half-duplicate filter and the per-key body of the Vigenère brute force |
| `Substitution` | subkey.dfy | class `SubKey`, `manipulateSubKey`, `decryptSubCipher` |
| `SubSearch` | subsearch.dfy | the unknown/free partition and the per-permutation body of the substitution brute force |
| `Affine` | affine.dfy | `computeInverse`, `decryptAffCipher`, the affine brute force |

Python exceptions become the `Err` side of a `Result`: `ValueError`,
`KeyError`, `IndexError` and `ZeroDivisionError`. Where the documentation
and the code disagree, the model follows the code:

- A substring shorter than two letters makes vig.py:208 divide by zero.
  The model returns `Err(ZeroDivisionError)` for it. It is neither an
  argument error nor a precondition.
- The same holds for an empty substring in `findPossibleKeys` (vig.py:281).
- The docstring of `decryptVigCipher` (vig.py:102) promises a `ValueError`
  for a key that is not a `Vigkey`. The code raises `TypeError`
  (vig.py:105-106). Typed signatures rule that case out.
- The fallback of `findPossibleKeys` (vig.py:284-286) is the 26 uppercase
  letters whatever m is.

The two floating-point computations are modelled with exact Dafny `real`
arithmetic:

- the index of coincidence, `Σ f(f-1) / (L(L-1))`;
- the score `mg = Σ FREQTABLE[i]·f_gi / L` with its band test.

So rounding is not modelled, but every branch of the code is.

## Model

| member | source | states |
|---|---|---|
| VigKey.ShiftKeyChar | vig.py:71-78 | the emitted letter is uppercase and its distance from 'A' is (key letter + drift − 65) mod 26 |
| VigKey.Vigkey.constructor | vig.py:49-54 | for well-formed key material the key is the upper-cased material, the mode is kept, pointer and increment start at 0 and nothing has been emitted |
| VigKey.NewVigkey | vig.py:44-54 | construction fails, with ValueError, exactly when the material is empty or holds an element that is not a one-character string; otherwise a fresh key with pointer 0 and increment 0 |
| VigKey.Vigkey.NextChar | vig.py:68-82 | the letter emitted is the current key letter shifted by the drift, and equals letter number `emitted` of the key stream; the cursor advances mod len(key); the drift grows by one mod 26 only on a roll-over in stream mode; pointer stays in [0, len), drift in [0, 26), and the drift is always 0 in classic mode |
| VigKey.Vigkey.Reset | vig.py:84-88 | pointer and increment are 0 again and the stream restarts from its first letter; key and mode do not change |
| VigKey.StepDivMod | vig.py:79-81 | one more call moves the cursor to (e+1) mod len and raises the round count exactly on a roll-over, the arithmetic behind the key stream |
| VigKey.ClassicPeriodic | vig.py:71-82 | in classic mode the stream repeats with period len(key) |
| VigKey.ClassicEmitsKey | vig.py:71-82 | in classic mode an uppercase key emits key[i mod len] as its i-th letter |
| VigKey.StreamDrift | vig.py:71-82 | in stream mode letter j of round r is key[j] shifted by r mod 26, that is the classic letter shifted by r |
| VigKey.DriftAfterRounds | vig.py:79-81 | after r whole rounds the cursor is at 0 and the drift is r mod 26 in stream mode and 0 in classic mode |
| VigDecrypt.UnshiftChar | vig.py:116-119 | one decrypted character is a lowercase symbol of Z_m: its code point lies in [97, 97 + m) |
| VigDecrypt.VigText | vig.py:114-120 | the decryption has one character per ciphertext character |
| VigDecrypt.VigTextSnoc | vig.py:115-119 | decrypting one more ciphertext character appends its letter under the next key letter |
| VigDecrypt.DecryptVigCipher | vig.py:90-120 | an empty ciphertext is a ValueError and leaves the key untouched; otherwise character j of the result is ciphertext letter j under key-stream letter start + j, and the key is left advanced by len(ctext) steps, not reset |
| VigDecrypt.VigEncrypt | vig.py:9-16 | the encryption the tool attacks yields one uppercase letter per plaintext letter |
| VigDecrypt.UnshiftUndoesShift | vig.py:116-119 | unshifting by key letter k undoes shifting a lowercase letter up by k |
| VigDecrypt.RoundTrip | vig.py:114-120 | decrypting with a fresh key gives back any lowercase plaintext encrypted with the same key as the header comment of vig.py describes, in both modes |
| VigDecrypt.OwnKeyDecryptsToA | vig.py:114-120 | in classic mode the key's own cyclic repetition decrypts to all 'a', for every m |
| Segment.OffsetStep | vig.py:166-168 | the offset grows by one mod m from block to block in stream mode and stays 0 in classic mode |
| Segment.Columns | vig.py:157-169 | the split has exactly n substrings |
| Segment.Column | vig.py:157-169 | substring t has one entry for each position congruent to t mod n |
| Segment.ColumnAt | vig.py:157-169 | entry x of substring t is the character at position t + x·n, lowered by the offset of block x |
| Segment.DivideIntoSubstrings | vig.py:145-169 | ValueError for n < 1, for m < 1 and for a ciphertext shorter than n; otherwise exactly the column split |
| Segment.DealColumns | vig.py:157-169 | the round-robin dealing loop yields exactly the column split |
| Segment.ColumnsTotalLength | vig.py:157-169 | the substrings together hold exactly len(ctext) characters |
| Segment.ColumnLengthPrefix | vig.py:157-169 | the first k substrings hold k·(len div n) characters plus one for each of them below len mod n |
| Segment.ColumnsPosition | vig.py:157-169 | ciphertext position j lands in substring j mod n at index j div n, lowered by the offset of block j div n |
| Segment.ClassicInterleave | vig.py:157-169 | in classic mode with m = 26 an uppercase ciphertext is only interleaved: no character changes |
| Segment.NineLettersInThree | vig.py:157-169 | a nine-letter uppercase text split three ways in classic mode gives letters 0,3,6 / 1,4,7 / 2,5,8 |
| Segment.ColumnOfNine | vig.py:157-169 | column t of that split holds letters t, t+3 and t+6 |
| Segment.NineLettersExample | vig.py:157-169 | "ABCDEFGHI" split three ways is ADG, BEH, CFI |
| Coincidence.Residue | vig.py:205 | the symbol a character stands for, after a shift, lies in [0, m) |
| Coincidence.Count | vig.py:203-206 | a symbol count never exceeds the length of the substring |
| Coincidence.CountSymbol | vig.py:203-206 | the counting loop computes the number of characters with the given symbol |
| Coincidence.CountSumSnoc | vig.py:202-206 | one more character adds one to the counts of exactly its own symbol |
| Coincidence.CountSumTotal | vig.py:202-206 | the counts f_i over i in [0, m) sum to L |
| Coincidence.PairSumBelow | vig.py:202-207 | the sum of f(f−1) over a range of symbols is at most S(S−1) for the number S of characters counted there |
| Coincidence.PairSumBounds | vig.py:202-208 | the numerator lies in [0, L(L−1)] and the index in [0, 1] |
| Coincidence.CountAbsent | vig.py:203-206 | a symbol no character has is counted 0 times |
| Coincidence.CountAll | vig.py:203-206 | a symbol every character has is counted L times |
| Coincidence.DistinctCountsAtMostOne | vig.py:203-206 | with pairwise distinct symbols no count exceeds one |
| Coincidence.DistinctIndexZero | vig.py:200-208 | when all symbols are distinct mod m the numerator, and so the index, is 0 |
| Coincidence.SameResidueIndexOne | vig.py:200-208 | when all symbols are equal mod m the numerator is exactly L(L−1) and the index is 1 |
| Coincidence.SubstringIndex | vig.py:200-209 | for one substring: a ZeroDivisionError below two letters, else its index of coincidence |
| Coincidence.FindIndicesOfCoincidence | vig.py:171-210 | ValueError for m < 1 and for an empty list; ZeroDivisionError when some substring is shorter than 2; otherwise one index per substring, in order |
| Coincidence.RunIndexOne | vig.py:200-208 | "AAAA" has index 1 |
| Coincidence.DistinctIndexExample | vig.py:200-208 | "ABCD" has index 0 |
| Candidates.ShiftedCount | vig.py:277-280 | the count for shift g at symbol i equals the unshifted count at symbol (i + g) mod m |
| Candidates.ScoreIsCorrelation | vig.py:275-281 | the score of shift g is the frequency table correlated with the text's histogram rotated by g |
| Candidates.AcceptedMembers | vig.py:274-283 | the accepted letters are exactly chr(g + 65) of the shifts g whose score lies in the band, in increasing order; none exactly when no shift is in the band |
| Candidates.KLettersNoDups | vig.py:273-286 | a column's candidate letters have no duplicates |
| Candidates.KLettersAccepted | vig.py:282-283 | when some shift is accepted the candidates are exactly the letters of the accepted shifts |
| Candidates.KLettersFallback | vig.py:284-286 | when no shift is accepted the candidates are all 26 uppercase letters, whatever m is |
| Candidates.ShiftScore | vig.py:275-281 | one score: ZeroDivisionError for an empty substring, else the score of the shift |
| Candidates.KLettersFor | vig.py:273-286 | ZeroDivisionError for an empty substring, else that substring's candidate letters |
| Candidates.KLettersList | vig.py:271-286 | one candidate set per substring |
| Candidates.KeyLettersProperties | vig.py:271-288 | keyLetters has no duplicate set and at most one set per substring, at least one for a non-empty list; every substring's set is present and every entry is some substring's set without repeated letters |
| Candidates.SameLettersMerge | vig.py:287-288 | two substrings with the same candidate set share one entry, so keys come out shorter than the number of substrings |
| Candidates.AddKLetters | vig.py:272-288 | repeating the computation for every k appends the set at most once: the repetition changes nothing |
| Candidates.CollectKLetters | vig.py:271-288 | ZeroDivisionError when some substring is empty; otherwise the deduplicated list of candidate sets |
| Candidates.Singletons | vig.py:261-262 | one one-letter key per letter |
| Candidates.Prepend | vig.py:266-268 | one key per key of the rest |
| Candidates.Cross | vig.py:264-268 | the product has len(letters)·len(rest) keys |
| Candidates.CrossMembers | vig.py:264-268 | a word is in the product exactly when its first letter is a candidate and the rest is a key of the rest |
| Candidates.KeysMembers | vig.py:250-269 | buildKeys yields exactly the words whose j-th letter is drawn from keyLetters[j], each of length len(keyLetters) |
| Candidates.KeysNoDups | vig.py:250-269 | buildKeys yields no key twice |
| Candidates.CrossNoDups | vig.py:264-268 | the product of duplicate-free lists has no duplicates |
| Candidates.KeysAreCross | vig.py:264-268 | with duplicate-free candidate sets the append-if-absent test drops nothing |
| Candidates.CrossAt | vig.py:264-268 | entry i·len(rest) + t of the product is letter i followed by key t |
| Candidates.KeysAt | vig.py:264-268 | keys come in first-position-major order: all keys starting with letter i precede those starting with letter i+1 |
| Candidates.KeysCount | vig.py:250-269 | there is one key per combination: the product of the set sizes |
| Candidates.CrossSnoc | vig.py:264-268 | one more first letter appends its block of keys |
| Candidates.PrependStep | vig.py:266-268 | the append-if-absent step for `letter + char` |
| Candidates.BuildKeys | vig.py:250-269 | the recursive helper computes the deduplicated cross product |
| Candidates.AddPrefixed | vig.py:265-268 | the inner loop appends each `letter + char` that is not yet present |
| Candidates.DedupKeys | vig.py:289-291 | the final loop keeps the first occurrence of every key |
| Candidates.KLettersListSnoc | vig.py:271-288 | one more substring adds its candidate set at the end |
| Candidates.FindPossibleKeys | vig.py:212-292 | ValueError for m < 1, for an empty list and for a table whose size is not m; ZeroDivisionError for an empty substring; otherwise the deduplicated keys built from the deduplicated candidate sets |
| Candidates.CandidatesAreCombinations | vig.py:250-292 | the result has no duplicates, holds exactly the combinations of the candidate sets, one per combination, and the final deduplication removes nothing |
| VigSearch.HalfDuplicateCases | vig.py:373-379 | the empty key is skipped, an odd-length key is never skipped, and an even-length key is skipped exactly when its second half repeats its first |
| VigSearch.VigTryKey | vig.py:380-389 | a skipped key yields nothing; an empty ciphertext is a ValueError; otherwise the decryption under a fresh key is reported exactly when every keyword occurs in it |
| VigSearch.DoubledKeyNeverReported | vig.py:373-379 | the key "AA" is never reported, whatever it would decrypt to |
| VigSearch.DoubledKeysSkipped | vig.py:373-379 | every doubled key h + h is skipped |
| Common.Upper | vig.py:49 | upper-casing maps a lowercase ASCII letter to its uppercase letter and leaves every other character alone |
| Common.AllKeywordsIn | vig.py:384-388 | the keyword test is true exactly when every keyword is a substring of the decryption (also sub.py:75-79, aff.py:56-60) |
| Common.DedupProperties | vig.py:287-291 | append-if-absent keeps exactly the input's elements, each once, never lengthening the list |
| Common.DedupShortens | vig.py:287-288 | a repeated element makes the deduplicated list strictly shorter |
| Common.DedupOfNoDups | vig.py:289-291 | a list without duplicates is its own deduplication |
| Substitution.SubKey.Identity | sub.py:30-31 | the initial key maps every uppercase letter, and only those, to itself |
| Substitution.LastHolderSpec | sub.py:20-23 | the search finds nothing exactly when no key holds the plain character, and otherwise a key that holds it |
| Substitution.SubKey.Manipulate | sub.py:16-26 | KeyError, with nothing changed, for a cipher character that is not a key; otherwise the key table becomes the swap of the cipher character and the previous holder of the plain character |
| Substitution.ManipulateSetsTarget | sub.py:19-26 | afterwards cipherchar maps to plainchar, also when it already did |
| Substitution.ManipulateKeepsKeys | sub.py:19-26 | the set of keys does not change |
| Substitution.ManipulateSwaps | sub.py:19-26 | only cipherchar and the previous holder of plainchar change, and that holder receives cipherchar's old value |
| Substitution.ManipulateUnused | sub.py:19-26 | if plainchar was nobody's value only cipherchar's entry changes |
| Substitution.ManipulatePreservesInjective | sub.py:21-26 | an injective key stays injective |
| Substitution.SubText | sub.py:9-14 | the decryption has one character per ciphertext character |
| Substitution.DecryptSubCipher | sub.py:9-14 | KeyError when some character is not a key; otherwise output[j] = key[ctext[j]] |
| Substitution.IdentityDecrypts | sub.py:9-14 | the identity key of sub.py:30-31 decrypts uppercase text to itself |
| Substitution.InjectiveDecryption | sub.py:9-14 | under an injective key, different ciphertexts decrypt to different texts |
| Substitution.ManipulatedDecryption | sub.py:19-26 | a manipulation changes the decryption only at the characters whose entries it changed |
| SubSearch.SortedTail | sub.py:68-69 | the tail of a sorted list is sorted and its head is below the rest |
| SubSearch.RemoveFirstProperties | sub.py:67 | `remove` on a sorted list keeps it sorted, drops exactly the removed value and shortens it by one |
| SubSearch.KnownDistinctLowerSnoc | sub.py:63-67 | one more scanned key keeps the known values distinct exactly when it is unknown or its value is still free |
| SubSearch.ScanValues | sub.py:62-67 | the scan fails exactly when a known value is not a lowercase letter or is used twice; otherwise unknownVals lists the free lowercase letters in increasing order, one fewer per known key |
| SubSearch.ScanKeys | sub.py:63-65 | unknownKeys lists, in scan order, the keys still mapped to an uppercase letter |
| SubSearch.ScanFacts | sub.py:60-69 | over 'A'..'Z': no ValueError exactly when the known values are distinct lowercase letters; then both lists are sorted, equally long, unknownKeys holds the keys mapped to uppercase and unknownVals the unused lowercase letters |
| SubSearch.UnknownsMatch | sub.py:60-73 | a successful scan leaves as many unknown keys as free letters |
| SubSearch.PartitionUnknowns | sub.py:60-69 | the scan loop and the two sorts compute the scan over 'A'..'Z'; the sorts change nothing |
| SubSearch.ScanStopped | sub.py:63-67 | once `remove` fails the whole scan fails |
| SubSearch.AssignedAt | sub.py:72-73 | after the assignment key perm[x] holds free letter x and every other key keeps its value |
| SubSearch.AssignPermutation | sub.py:72-73 | IndexError when there are more free letters than permuted keys; otherwise the assignment |
| SubSearch.CompletionIsBijection | sub.py:60-73 | each permutation assignment keeps the keys, changes only unknown keys, yields only lowercase values and leaves the key injective |
| SubSearch.CompleteKey | sub.py:72-73 | distinct free letters assigned to the distinct unknown keys complete an injective lowercase key |
| SubSearch.SubTryPermutation | sub.py:71-81 | IndexError or KeyError as the assignment and the decryption raise them; otherwise the completed key, and its decryption exactly when every keyword occurs in it |
| Affine.MulMod | aff.py:15 | the product remainder lies in [0, m) |
| Affine.InverseFromSpec | aff.py:14-17 | a search from x returns 1 exactly when no y in [x, m) inverts a, and otherwise the least such y |
| Affine.InverseSpec | aff.py:12-17 | for m ≥ 2 the result lies in [1, m); a result x ≠ 1 satisfies (a·x) mod m = 1 with no smaller y ≥ 2 doing so; the result is 1 exactly when no x in [2, m) inverts a |
| Affine.ComputeInverse | aff.py:12-17 | the loop with its early return computes the search |
| Affine.MulModResidue | aff.py:15 | only a mod m matters |
| Affine.InverseFindsUnits | aff.py:12-17 | for m ≥ 2 the search finds an inverse exactly when a is invertible and a ≢ 1 (mod m) |
| Affine.UnitsOf26 | aff.py:12-17 | modulo 26 exactly the odd residues other than 13 are invertible, with the listed inverses |
| Affine.AffDecryptChar | aff.py:9 | every decrypted character is a lowercase letter |
| Affine.AffText | aff.py:5-10 | the decryption has one character per ciphertext character |
| Affine.DecryptAffCipher | aff.py:5-10 | the loop, calling computeInverse for every character, computes the decryption, which is all lowercase |
| Affine.DecryptsEncryptedChar | aff.py:9 | with (a·inv) mod 26 = 1 decryption undoes encryption letter by letter |
| Affine.UndoAffine | aff.py:9 | multiplying (a·q + b − b) mod 26 by an inverse of a gives back q |
| Affine.AffRoundTrip | aff.py:5-17 | for a coprime to 26, decrypting 'A' + (a·p + b) mod 26 with key (a, b) gives back 'a' + p |
| Affine.AffTriedUnits | aff.py:52-53 | a passes the filter exactly when a = 1 or a is invertible modulo 26 with a ≢ 1 (mod 26); among 1..25 exactly the units of Z26 pass |
| Affine.TwelveUnits | aff.py:52-53 | for m = 26 the filter keeps exactly 1, 3, 5, 7, 9, 11, 15, 17, 19, 21, 23, 25 |
| Affine.AffBruteForce | aff.py:52-62 | the keys printed are exactly the (a, b) in [1, m) × [0, m) with a passing the filter and every keyword in the decryption, in loop order |
| Affine.AffTryRow | aff.py:54-62 | the inner loop over b appends the hits of row a in order |

## Left out

- Interactive menus, printing and the command-line, file and stdin handling
  are I/O and are not modelled. These are `vig()` (vig.py:294-394), `sub()`
  (sub.py:28-84), `aff()` (aff.py:19-65) and the `__main__` blocks.
  - The brute-force bodies are modelled.
  - The keyword lists, which the menus read and split, are inputs.
  - vig.py:412 opens `sys.argv[1]` (the mode flag) where `sys.argv[2]`
    (the file name) is meant. This is I/O handling and is not modelled.
  - aff.py:76 calls `aff` once for every line read. This is I/O handling
    and is not modelled.
- Enumeration is not modelled. The model leaves out the order and the
  laziness of `itertools.product` (vig.py:373-379) and of
  `itertools.permutations` (sub.py:70), and the loops over them. The work
  done for one enumerated item is modelled: `VigSearch.VigTryKey` and
  `SubSearch.SubTryPermutation`.
- The English frequency table (vig.py:305-308) is a parameter of
  `Candidates.FindPossibleKeys`.
- Floating-point rounding is not modelled. The index of coincidence and the
  score `mg` are exact reals, and the band test (0.06, 0.07) is applied to
  the exact score. Near the band edges an IEEE computation can decide
  differently.
- The `isinstance` checks that raise `TypeError` (vig.py:105-113,
  vig.py:145-156, vig.py:189-198, vig.py:230-245) are not modelled. Typed
  signatures exclude those inputs: a `Vigkey`, strings, integers and a list
  of reals.
- Key material is a sequence of strings. `Vigkey.__init__` also accepts
  other sized iterables, such as a tuple, and those are not modelled. A
  generator makes `len(key)` at vig.py:44 raise `TypeError`, like the other
  `TypeError` paths left out above.
- `str.upper()` (vig.py:49) and `str.isupper()` (sub.py:64) are modelled on
  ASCII only. Non-ASCII letters are left as they are, where Python would
  upper-case them. A non-ASCII uppercase value in the substitution key,
  such as 'ℂ', makes the scan return `ValueError`, where Python would treat
  its key as unknown.
- Characters are restricted to Dafny's `char`, which excludes surrogate code
  points. So the moduli of the Vigenère functions are bounded by
  `MaxModulus`, which keeps `chr(x % m + 97)` a valid character.
- `Vigkey.__str__` (vig.py:56-66) depends on Python's list formatting, and
  the docstring example of vig.py:138 does not hold for the code as
  written. Neither is modelled.
- `Vigkey.m` is the constant 26, as in vig.py:53. The key letters therefore
  drift modulo 26 even when the decryption uses another m.
- VigSearch.VigTryKey: it requires uppercase key letters, as the
  enumeration over `string.ascii_uppercase` produces. A negative key length,
  for which `itertools.product` raises, is not modelled.
- Substitution keys and values are single characters. sub.py:54-56 can
  store longer strings typed at the prompt, and the model excludes them.
- `manipulateSubKey` iterates the dictionary in insertion order, which is
  'A'..'Z' because only sub.py:31 inserts keys. The model scans 'A'..'Z'.
- Candidates.BuildKeys: it requires at least one candidate set. For an
  empty list, `keyLetters[0]` at vig.py:264 would raise `IndexError`, but `findPossibleKeys`
  never calls it with one.
- The affine a-filter (aff.py:53) searches modulo 26 whatever m the user
  gave, and the model keeps this. For m > 26 the multipliers a ≡ 1
  (mod 26) other than 1 are skipped. Larger multipliers repeat keys.
