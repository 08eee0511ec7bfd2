/** Candidate Vigenère keys from frequency analysis (findPossibleKeys and its
    helper buildKeys, vig.py:212-292). For each substring and each shift g the
    code scores Σ_i FREQTABLE[i]·f_{g,i} / L, where f_{g,i} counts the letters
    whose residue after subtracting g is i; the shifts scoring strictly between
    0.06 and 0.07 give that substring's candidate letters. The score is
    computed exactly, as a real. */
module Candidates {
  import opened Common
  import Arith
  import Coincidence

  /** Counting residue i after a shift by g counts residue (i + g) mod m of
      the unshifted text (vig.py:277-280 against vig.py:203-205). */
  lemma {:induction false} ShiftedCount(s: string, i: int, g: int, m: int)
    requires m >= 1 && 0 <= i < m
    ensures Coincidence.Count(s, i, g, m) == Coincidence.Count(s, (i + g) % m, 0, m)
    decreases |s|
  {
    if s != [] {
      ShiftedCount(s[..|s| - 1], i, g, m);
      Arith.ShiftResidue(s[|s| - 1] as int - 65, g, i, m);
    }
  }

  /** `(FREQTABLE[i]*fgi) / len(substring)`, one term of `mg` (vig.py:281). */
  function Term(freq: real, count: nat, len: nat): real
    requires len >= 1
  {
    freq * count as real / len as real
  }

  /** The running value of `mg` after the first `upto` symbols (vig.py:275-281). */
  function ScoreSum(s: string, freq: seq<real>, g: int, m: int, upto: nat): real
    requires m >= 1 && |s| >= 1 && upto <= |freq|
    decreases upto
  {
    if upto == 0 then 0.0
    else ScoreSum(s, freq, g, m, upto - 1) + Term(freq[upto - 1], Coincidence.Count(s, upto - 1, g, m), |s|)
  }

  /** The score `mg` of shift g for substring s. */
  function Score(s: string, freq: seq<real>, g: int, m: int): real
    requires m >= 1 && |s| >= 1 && |freq| == m
  {
    ScoreSum(s, freq, g, m, m)
  }

  /** The same sum written as a correlation: the frequency of symbol i against
      the share of symbol i + g in the unshifted text. */
  function Correlation(s: string, freq: seq<real>, g: int, m: int, upto: nat): real
    requires m >= 1 && |s| >= 1 && upto <= |freq|
    decreases upto
  {
    if upto == 0 then 0.0
    else Correlation(s, freq, g, m, upto - 1) + Term(freq[upto - 1], Coincidence.Count(s, (upto - 1 + g) % m, 0, m), |s|)
  }

  /** The score of shift g correlates the frequency table with the text's
      histogram rotated by g. */
  lemma {:induction false} ScoreIsCorrelation(s: string, freq: seq<real>, g: int, m: int, upto: nat)
    requires m >= 1 && |s| >= 1 && upto <= |freq| && upto <= m
    ensures ScoreSum(s, freq, g, m, upto) == Correlation(s, freq, g, m, upto)
    decreases upto
  {
    if upto > 0 {
      ScoreIsCorrelation(s, freq, g, m, upto - 1);
      assert Coincidence.Count(s, upto - 1, g, m) == Coincidence.Count(s, (upto - 1 + g) % m, 0, m) by {
        ShiftedCount(s, upto - 1, g, m);
      }
    }
  }

  /** `mg > 0.06 and mg < 0.07` (vig.py:282). */
  predicate InBand(mg: real) {
    0.06 < mg < 0.07
  }

  /** The letters `chr(g + 65)` of the accepted shifts g < upto, in order of g (vig.py:274-283). */
  function Accepted(s: string, freq: seq<real>, m: int, upto: nat): string
    requires 1 <= m <= MaxModulus && |s| >= 1 && |freq| == m && upto <= m
    decreases upto
  {
    if upto == 0 then []
    else Accepted(s, freq, m, upto - 1) + (if InBand(Score(s, freq, upto - 1, m)) then [(upto - 1 + 65) as char] else [])
  }

  /** The candidate letters of one substring: the accepted shifts, or all 26
      uppercase letters when no shift is accepted (vig.py:273-286). */
  function KLetters(s: string, freq: seq<real>, m: int): string
    requires 1 <= m <= MaxModulus && |s| >= 1 && |freq| == m
  {
    if Accepted(s, freq, m, m) == [] then UpperAlphabet else Accepted(s, freq, m, m)
  }

  /** The accepted letters are exactly the letters of the accepted shifts, in increasing order. */
  lemma {:induction false} AcceptedMembers(s: string, freq: seq<real>, m: int, upto: nat)
    requires 1 <= m <= MaxModulus && |s| >= 1 && |freq| == m && upto <= m
    ensures forall c :: c in Accepted(s, freq, m, upto) <==>
              65 <= c as int < 65 + upto && InBand(Score(s, freq, c as int - 65, m))
    ensures forall i, j :: 0 <= i < j < |Accepted(s, freq, m, upto)| ==>
              Accepted(s, freq, m, upto)[i] < Accepted(s, freq, m, upto)[j]
    ensures Accepted(s, freq, m, upto) == [] <==> forall g :: 0 <= g < upto ==> !InBand(Score(s, freq, g, m))
    decreases upto
  {
    if upto > 0 {
      AcceptedMembers(s, freq, m, upto - 1);
      var a := Accepted(s, freq, m, upto - 1);
      var x := (upto - 1 + 65) as char;
      if InBand(Score(s, freq, upto - 1, m)) {
        assert Accepted(s, freq, m, upto) == a + [x];
        forall i, j | 0 <= i < j < |a| + 1 ensures (a + [x])[i] < (a + [x])[j] {
          if j == |a| {
            assert a[i] in a;
          } else {
            assert (a + [x])[i] == a[i] && (a + [x])[j] == a[j];
          }
        }
      }
      forall c ensures c in Accepted(s, freq, m, upto) <==>
                 65 <= c as int < 65 + upto && InBand(Score(s, freq, c as int - 65, m))
      {
        if c as int == 65 + upto - 1 {
          assert c == (upto - 1 + 65) as char;
        }
      }
    }
  }

  /** A substring's candidate letters have no duplicates. */
  lemma KLettersNoDups(s: string, freq: seq<real>, m: int)
    requires 1 <= m <= MaxModulus && |s| >= 1 && |freq| == m
    ensures NoDups(KLetters(s, freq, m))
  {
    if Accepted(s, freq, m, m) == [] {
      forall i, j | 0 <= i < j < |UpperAlphabet| ensures UpperAlphabet[i] != UpperAlphabet[j] {
        assert UpperAlphabet[i] as int == 65 + i && UpperAlphabet[j] as int == 65 + j;
      }
    } else {
      AcceptedMembers(s, freq, m, m);
    }
  }

  /** When some shift is accepted, the candidate letters are exactly the
      letters `chr(g + 65)` of the accepted shifts g (vig.py:282-283). */
  lemma KLettersAccepted(s: string, freq: seq<real>, m: int, g: int)
    requires 1 <= m <= MaxModulus && |s| >= 1 && |freq| == m
    requires 0 <= g < m && InBand(Score(s, freq, g, m))
    ensures forall c :: c in KLetters(s, freq, m) <==> 65 <= c as int < 65 + m && InBand(Score(s, freq, c as int - 65, m))
  {
    AcceptedMembers(s, freq, m, m);
    assert ((g + 65) as char) in Accepted(s, freq, m, m);
  }

  /** When no shift is accepted, the candidate letters are the whole uppercase
      alphabet, whatever m is (vig.py:284-286). */
  lemma KLettersFallback(s: string, freq: seq<real>, m: int)
    requires 1 <= m <= MaxModulus && |s| >= 1 && |freq| == m
    requires forall g :: 0 <= g < m ==> !InBand(Score(s, freq, g, m))
    ensures KLetters(s, freq, m) == UpperAlphabet
  {
    AcceptedMembers(s, freq, m, m);
  }

  /** The inner loop over the symbols for one shift (vig.py:275-281):
      ZeroDivisionError for an empty substring, else the score. */
  method ShiftScore(s: string, freq: seq<real>, g: int, m: int) returns (r: Result<real>)
    requires m >= 1 && |freq| == m
    ensures |s| == 0 ==> r == Err(ZeroDivisionError)
    ensures |s| >= 1 ==> r == Ok(Score(s, freq, g, m))
  {
    var mg := 0.0;
    var i := 0;
    while i < m
      invariant 0 <= i <= m
      invariant |s| == 0 ==> i == 0
      invariant |s| >= 1 ==> mg == ScoreSum(s, freq, g, m, i)
    {
      var fgi := Coincidence.CountSymbol(s, i, g, m);
      if |s| == 0 {
        return Err(ZeroDivisionError);
      }
      mg := mg + Term(freq[i], fgi, |s|);
      i := i + 1;
    }
    return Ok(mg);
  }

  /** The candidate letters of one substring (vig.py:273-286). */
  method KLettersFor(s: string, freq: seq<real>, m: int) returns (r: Result<string>)
    requires 1 <= m <= MaxModulus && |freq| == m
    ensures |s| == 0 ==> r == Err(ZeroDivisionError)
    ensures |s| >= 1 ==> r == Ok(KLetters(s, freq, m))
  {
    var kLetters: string := [];
    var g := 0;
    while g < m
      invariant 0 <= g <= m
      invariant |s| == 0 ==> g == 0
      invariant |s| >= 1 ==> kLetters == Accepted(s, freq, m, g)
    {
      var mg := ShiftScore(s, freq, g, m);
      if mg.Err? {
        return Err(mg.error);
      }
      if mg.value > 0.06 && mg.value < 0.07 {
        kLetters := kLetters + [(g + 65) as char];
      }
      g := g + 1;
    }
    if |kLetters| == 0 {
      var t := 0;
      while t < |UpperAlphabet|
        invariant 0 <= t <= |UpperAlphabet|
        invariant kLetters == UpperAlphabet[..t]
      {
        kLetters := kLetters + [UpperAlphabet[t]];
        t := t + 1;
      }
      assert kLetters == UpperAlphabet;
    }
    return Ok(kLetters);
  }

  /** Every substring has at least one character, so `len(substring)` can divide (vig.py:281). */
  predicate AllNonEmpty(substrings: seq<string>) {
    forall i :: 0 <= i < |substrings| ==> |substrings[i]| >= 1
  }

  /** The candidate letters of every substring, in order, before deduplication. */
  function KLettersList(substrings: seq<string>, freq: seq<real>, m: int): (ls: seq<string>)
    requires 1 <= m <= MaxModulus && |freq| == m && AllNonEmpty(substrings)
    ensures |ls| == |substrings|
  {
    seq(|substrings|, i requires 0 <= i < |substrings| => KLetters(substrings[i], freq, m))
  }

  /** `keyLetters` once the loops of vig.py:271-288 are done: a candidate set
      is appended only when it is not already present. */
  function KeyLetters(substrings: seq<string>, freq: seq<real>, m: int): seq<string>
    requires 1 <= m <= MaxModulus && |freq| == m && AllNonEmpty(substrings)
  {
    Dedup(KLettersList(substrings, freq, m))
  }

  /** `keyLetters` holds one entry per distinct candidate set, at most one per
      substring, each set duplicate-free; every substring's set is present. */
  lemma KeyLettersProperties(substrings: seq<string>, freq: seq<real>, m: int)
    requires 1 <= m <= MaxModulus && |freq| == m && AllNonEmpty(substrings)
    ensures |KeyLetters(substrings, freq, m)| <= |substrings|
    ensures |substrings| >= 1 ==> |KeyLetters(substrings, freq, m)| >= 1
    ensures NoDups(KeyLetters(substrings, freq, m))
    ensures forall i :: 0 <= i < |substrings| ==> KLetters(substrings[i], freq, m) in KeyLetters(substrings, freq, m)
    ensures forall e :: e in KeyLetters(substrings, freq, m) ==>
              exists i :: 0 <= i < |substrings| && e == KLetters(substrings[i], freq, m)
    ensures forall e :: e in KeyLetters(substrings, freq, m) ==> NoDups(e)
  {
    var ls := KLettersList(substrings, freq, m);
    DedupProperties(ls);
    forall i | 0 <= i < |substrings| ensures KLetters(substrings[i], freq, m) in KeyLetters(substrings, freq, m) {
      assert ls[i] in ls;
    }
    forall e | e in KeyLetters(substrings, freq, m) ensures NoDups(e) {
      var i :| 0 <= i < |ls| && ls[i] == e;
      KLettersNoDups(substrings[i], freq, m);
    }
  }

  /** Two substrings with the same candidate set share one position of
      `keyLetters`, so the candidate keys are shorter than the number of
      substrings (vig.py:287). */
  lemma SameLettersMerge(substrings: seq<string>, freq: seq<real>, m: int, i: nat, j: nat)
    requires 1 <= m <= MaxModulus && |freq| == m && AllNonEmpty(substrings)
    requires i < j < |substrings| && KLetters(substrings[i], freq, m) == KLetters(substrings[j], freq, m)
    ensures |KeyLetters(substrings, freq, m)| < |substrings|
  {
    DedupShortens(KLettersList(substrings, freq, m), i, j);
  }

  /** `[l for l in letters]`: each letter as a one-letter key (vig.py:262). */
  function Singletons(letters: string): (ws: seq<string>)
    ensures |ws| == |letters|
  {
    seq(|letters|, i requires 0 <= i < |letters| => [letters[i]])
  }

  /** `letter + w` for every w of rest, in order (vig.py:266-268). */
  function Prepend(c: char, rest: seq<string>): (ws: seq<string>)
    ensures |ws| == |rest|
  {
    seq(|rest|, i requires 0 <= i < |rest| => [c] + rest[i])
  }

  /** Every letter of `letters` followed by every key of rest, letter by letter
      (vig.py:264-268, before deduplication). */
  function Cross(letters: string, rest: seq<string>): (ws: seq<string>)
    ensures |ws| == |letters| * |rest|
    decreases |letters|
  {
    if letters == [] then []
    else Cross(letters[..|letters| - 1], rest) + Prepend(letters[|letters| - 1], rest)
  }

  /** What buildKeys returns for a non-empty keyLetters (vig.py:250-269). */
  function Keys(kl: seq<string>): seq<string>
    requires |kl| >= 1
    decreases |kl|
  {
    if |kl| == 1 then Singletons(kl[0]) else Dedup(Cross(kl[0], Keys(kl[1..])))
  }

  /** w picks, at each position j, one of the candidate letters of position j. */
  predicate IsCombination(w: string, kl: seq<string>) {
    |w| == |kl| && forall j :: 0 <= j < |w| ==> w[j] in kl[j]
  }

  lemma {:induction false} CrossMembers(letters: string, rest: seq<string>)
    ensures forall w :: w in Cross(letters, rest) <==> |w| >= 1 && w[0] in letters && w[1..] in rest
    decreases |letters|
  {
    if letters != [] {
      var init, c := letters[..|letters| - 1], letters[|letters| - 1];
      CrossMembers(init, rest);
      assert letters == init + [c];
      forall w ensures w in Cross(letters, rest) <==> |w| >= 1 && w[0] in letters && w[1..] in rest {
        if w in Prepend(c, rest) {
          var i :| 0 <= i < |rest| && Prepend(c, rest)[i] == w;
          assert w[1..] == rest[i];
        }
        if |w| >= 1 && w[0] == c && w[1..] in rest {
          var i :| 0 <= i < |rest| && rest[i] == w[1..];
          assert Prepend(c, rest)[i] == w;
        }
      }
    }
  }

  /** buildKeys yields exactly the combinations of the candidate letters. */
  lemma {:induction false} KeysMembers(kl: seq<string>)
    requires |kl| >= 1
    ensures forall w :: w in Keys(kl) <==> IsCombination(w, kl)
    decreases |kl|
  {
    if |kl| == 1 {
      forall w ensures w in Keys(kl) <==> IsCombination(w, kl) {
        if IsCombination(w, kl) {
          var i :| 0 <= i < |kl[0]| && kl[0][i] == w[0];
          assert Singletons(kl[0])[i] == w;
        }
      }
    } else {
      var rest := Keys(kl[1..]);
      KeysMembers(kl[1..]);
      CrossMembers(kl[0], rest);
      DedupProperties(Cross(kl[0], rest));
      forall w ensures IsCombination(w, kl) <==> |w| >= 1 && w[0] in kl[0] && IsCombination(w[1..], kl[1..]) {
        if |w| >= 1 && w[0] in kl[0] && IsCombination(w[1..], kl[1..]) {
          forall j | 1 <= j < |w| ensures w[j] in kl[j] {
            assert w[1..][j - 1] == w[j] && kl[1..][j - 1] == kl[j];
          }
        }
        if IsCombination(w, kl) {
          forall j | 0 <= j < |w[1..]| ensures w[1..][j] in kl[1..][j] {
            assert w[1..][j] == w[j + 1] && kl[1..][j] == kl[j + 1];
          }
        }
      }
    }
  }

  /** The keys have no duplicates, given that the last position's letters have
      none (a single position is not deduplicated, vig.py:261-262). */
  lemma KeysNoDups(kl: seq<string>)
    requires |kl| >= 1
    requires |kl| >= 2 || NoDups(kl[0])
    ensures NoDups(Keys(kl))
  {
    if |kl| >= 2 {
      DedupProperties(Cross(kl[0], Keys(kl[1..])));
    } else {
      forall i, j | 0 <= i < j < |kl[0]| ensures Keys(kl)[i] != Keys(kl)[j] {
        assert Keys(kl)[i][0] == kl[0][i] && Keys(kl)[j][0] == kl[0][j];
      }
    }
  }

  predicate AllNoDups(kl: seq<string>) {
    forall j :: 0 <= j < |kl| ==> NoDups(kl[j])
  }

  lemma {:induction false} CrossNoDups(letters: string, rest: seq<string>)
    requires NoDups(letters) && NoDups(rest)
    ensures NoDups(Cross(letters, rest))
    decreases |letters|
  {
    if letters != [] {
      var init, c := letters[..|letters| - 1], letters[|letters| - 1];
      assert NoDups(init) by {
        forall i, j | 0 <= i < j < |init| ensures init[i] != init[j] {
          assert init[i] == letters[i] && init[j] == letters[j];
        }
      }
      CrossNoDups(init, rest);
      CrossMembers(init, rest);
      assert NoDups(Prepend(c, rest)) by {
        forall i, j | 0 <= i < j < |rest| ensures Prepend(c, rest)[i] != Prepend(c, rest)[j] {
          assert Prepend(c, rest)[i][1..] == rest[i] && Prepend(c, rest)[j][1..] == rest[j];
        }
      }
      assert c !in init by {
        forall i | 0 <= i < |init| ensures init[i] != c {
          assert init[i] == letters[i];
        }
      }
      NoDupsConcat(Cross(init, rest), Prepend(c, rest));
    }
  }

  /** With duplicate-free candidate sets the deduplication of buildKeys never
      drops anything: the keys are the full cross product. */
  lemma KeysAreCross(kl: seq<string>)
    requires |kl| >= 2 && AllNoDups(kl)
    ensures Keys(kl) == Cross(kl[0], Keys(kl[1..]))
  {
    KeysNoDups(kl[1..]);
    CrossNoDups(kl[0], Keys(kl[1..]));
    DedupOfNoDups(Cross(kl[0], Keys(kl[1..])));
  }

  /** Entry i*|rest| + t of the product is letter i followed by key t of rest. */
  lemma {:induction false} CrossAt(letters: string, rest: seq<string>, i: nat, t: nat)
    requires i < |letters| && t < |rest|
    ensures i * |rest| + t < |Cross(letters, rest)|
    ensures Cross(letters, rest)[i * |rest| + t] == [letters[i]] + rest[t]
    decreases |letters|
  {
    var n := |letters|;
    var init := letters[..n - 1];
    assert |Cross(init, rest)| == (n - 1) * |rest|;
    if i == n - 1 {
      assert Cross(letters, rest)[i * |rest| + t] == Prepend(letters[n - 1], rest)[t];
    } else {
      Arith.BelowProduct(i, n - 1, |rest|, t);
      CrossAt(init, rest, i, t);
      assert init[i] == letters[i];
    }
    Arith.BelowProduct(i, n, |rest|, t);
  }

  /** Keys come in first-position-major order: all keys starting with the
      first candidate letter, then all starting with the second, and so on,
      each block in the order of the keys for the remaining positions
      (vig.py:264-268). */
  lemma KeysAt(kl: seq<string>, i: nat, t: nat)
    requires |kl| >= 2 && AllNoDups(kl)
    requires i < |kl[0]| && t < |Keys(kl[1..])|
    ensures i * |Keys(kl[1..])| + t < |Keys(kl)|
    ensures Keys(kl)[i * |Keys(kl[1..])| + t] == [kl[0][i]] + Keys(kl[1..])[t]
  {
    KeysAreCross(kl);
    CrossAt(kl[0], Keys(kl[1..]), i, t);
  }

  /** The product of the sizes of the candidate sets. */
  function Product(kl: seq<string>): nat
    requires |kl| >= 1
    decreases |kl|
  {
    if |kl| == 1 then |kl[0]| else |kl[0]| * Product(kl[1..])
  }

  /** With duplicate-free candidate sets there is one key per combination. */
  lemma {:induction false} KeysCount(kl: seq<string>)
    requires |kl| >= 1 && AllNoDups(kl)
    ensures |Keys(kl)| == Product(kl)
    decreases |kl|
  {
    if |kl| >= 2 {
      assert AllNoDups(kl[1..]) by {
        forall j | 0 <= j < |kl[1..]| ensures NoDups(kl[1..][j]) {
          assert kl[1..][j] == kl[j + 1];
        }
      }
      KeysCount(kl[1..]);
      KeysAreCross(kl);
    }
  }

  /** One more letter of the first position extends the product by its block. */
  lemma CrossSnoc(letters: string, i: nat, rest: seq<string>)
    requires i < |letters|
    ensures Cross(letters[..i + 1], rest) == Cross(letters[..i], rest) + Prepend(letters[i], rest)
  {
    assert letters[..i + 1][..i] == letters[..i];
  }

  /** The append-if-absent step of vig.py:266-268 for the key `letter + rest[j]`. */
  lemma PrependStep(acc: seq<string>, letter: char, rest: seq<string>, j: nat)
    requires j < |rest|
    ensures Dedup(acc + Prepend(letter, rest[..j + 1])) ==
            if [letter] + rest[j] in Dedup(acc + Prepend(letter, rest[..j]))
            then Dedup(acc + Prepend(letter, rest[..j]))
            else Dedup(acc + Prepend(letter, rest[..j])) + [[letter] + rest[j]]
  {
    var key := [letter] + rest[j];
    assert Prepend(letter, rest[..j + 1]) == Prepend(letter, rest[..j]) + [key];
    assert acc + Prepend(letter, rest[..j + 1]) == (acc + Prepend(letter, rest[..j])) + [key];
    DedupSnoc(acc + Prepend(letter, rest[..j]), key);
  }

  /** buildKeys (vig.py:250-269): for each letter of the first position,
      recurse on the remaining positions and append every extension not yet
      present. */
  method BuildKeys(kl: seq<string>) returns (keys: seq<string>)
    requires |kl| >= 1
    ensures keys == Keys(kl)
    decreases |kl|
  {
    if |kl| == 1 {
      return seq(|kl[0]|, i requires 0 <= i < |kl[0]| => [kl[0][i]]);
    }
    keys := [];
    var i := 0;
    while i < |kl[0]|
      invariant 0 <= i <= |kl[0]|
      invariant keys == Dedup(Cross(kl[0][..i], Keys(kl[1..])))
    {
      var letter := kl[0][i];
      var nextChars := BuildKeys(kl[1..]);
      keys := AddPrefixed(keys, Cross(kl[0][..i], nextChars), letter, nextChars);
      CrossSnoc(kl[0], i, nextChars);
      i := i + 1;
    }
    assert kl[0][..i] == kl[0];
  }

  /** The loop over nextChars of vig.py:266-268 for one letter: each
      `letter + char` is appended unless it is already there. */
  method AddPrefixed(keys0: seq<string>, ghost acc: seq<string>, letter: char, nextChars: seq<string>)
    returns (keys: seq<string>)
    requires keys0 == Dedup(acc)
    ensures keys == Dedup(acc + Prepend(letter, nextChars))
  {
    keys := keys0;
    assert acc + Prepend(letter, nextChars[..0]) == acc;
    var j := 0;
    while j < |nextChars|
      invariant 0 <= j <= |nextChars|
      invariant keys == Dedup(acc + Prepend(letter, nextChars[..j]))
    {
      var key := [letter] + nextChars[j];
      PrependStep(acc, letter, nextChars, j);
      if key !in keys {
        keys := keys + [key];
      }
      j := j + 1;
    }
    assert nextChars[..j] == nextChars;
  }

  /** Keep the first occurrence of every key (vig.py:289-291). */
  method DedupKeys(keys: seq<string>) returns (keyCandidates: seq<string>)
    ensures keyCandidates == Dedup(keys)
  {
    keyCandidates := [];
    var i := 0;
    while i < |keys|
      invariant 0 <= i <= |keys|
      invariant keyCandidates == Dedup(keys[..i])
    {
      assert keys[..i + 1] == keys[..i] + [keys[i]];
      DedupSnoc(keys[..i], keys[i]);
      if keys[i] !in keyCandidates {
        keyCandidates := keyCandidates + [keys[i]];
      }
      i := i + 1;
    }
    assert keys[..i] == keys;
  }

  /** The candidate sets of one more substring extend the list by one entry. */
  lemma KLettersListSnoc(substrings: seq<string>, j: nat, freq: seq<real>, m: int)
    requires 1 <= m <= MaxModulus && |freq| == m && j < |substrings|
    requires AllNonEmpty(substrings[..j]) && |substrings[j]| >= 1
    ensures AllNonEmpty(substrings[..j + 1])
    ensures KLettersList(substrings[..j + 1], freq, m) == KLettersList(substrings[..j], freq, m) + [KLetters(substrings[j], freq, m)]
  {
    assert substrings[..j + 1] == substrings[..j] + [substrings[j]];
  }

  /** The loop over k of vig.py:272-288 for one substring: the same candidate
      set is computed `times` times, and appended to keyLetters only when it is
      not already there, so the repetition changes nothing. */
  method AddKLetters(substring: string, times: nat, keyLetters: seq<string>, freq: seq<real>, m: int)
    returns (r: Result<seq<string>>)
    requires 1 <= m <= MaxModulus && |freq| == m && times >= 1
    ensures |substring| == 0 ==> r == Err(ZeroDivisionError)
    ensures |substring| >= 1 ==>
              r == Ok(if KLetters(substring, freq, m) in keyLetters then keyLetters
                      else keyLetters + [KLetters(substring, freq, m)])
  {
    var acc := keyLetters;
    var k := 0;
    while k < times
      invariant 0 <= k <= times
      invariant k == 0 ==> acc == keyLetters
      invariant k > 0 ==> |substring| >= 1 &&
                          acc == if KLetters(substring, freq, m) in keyLetters then keyLetters
                                 else keyLetters + [KLetters(substring, freq, m)]
    {
      var kLetters := KLettersFor(substring, freq, m);
      if kLetters.Err? {
        return Err(kLetters.error);
      }
      if kLetters.value !in acc {
        acc := acc + [kLetters.value];
      }
      k := k + 1;
    }
    return Ok(acc);
  }

  /** The loop over the substrings of vig.py:271-288: the candidate sets in
      order of first appearance, or a ZeroDivisionError at the first empty
      substring. */
  method CollectKLetters(substrings: seq<string>, freqTable: seq<real>, m: int) returns (r: Result<seq<string>>)
    requires 1 <= m <= MaxModulus && |freqTable| == m
    ensures !AllNonEmpty(substrings) ==> r == Err(ZeroDivisionError)
    ensures AllNonEmpty(substrings) ==> r == Ok(KeyLetters(substrings, freqTable, m))
  {
    var keyLetters: seq<string> := [];
    var j := 0;
    while j < |substrings|
      invariant 0 <= j <= |substrings|
      invariant AllNonEmpty(substrings[..j])
      invariant keyLetters == Dedup(KLettersList(substrings[..j], freqTable, m))
    {
      var step := AddKLetters(substrings[j], |substrings|, keyLetters, freqTable, m);
      if step.Err? {
        return Err(step.error);
      }
      assert step.value == Dedup(KLettersList(substrings[..j + 1], freqTable, m)) by {
        KLettersListSnoc(substrings, j, freqTable, m);
        DedupSnoc(KLettersList(substrings[..j], freqTable, m), KLetters(substrings[j], freqTable, m));
      }
      keyLetters := step.value;
      j := j + 1;
    }
    assert substrings[..j] == substrings;
    return Ok(keyLetters);
  }

  /** findPossibleKeys (vig.py:212-292): ValueError for m < 1, an empty list
      or a frequency table whose length is not m; ZeroDivisionError when a
      substring is empty; otherwise the deduplicated keys built from
      `keyLetters`. The candidate set of every substring is recomputed once
      per substring (the loop over k, vig.py:272) and appended only if new. */
  method FindPossibleKeys(substrings: seq<string>, freqTable: seq<real>, m: int) returns (r: Result<seq<string>>)
    requires m <= MaxModulus
    ensures m < 1 ==> r == Err(ValueError)
    ensures m >= 1 && |substrings| == 0 ==> r == Err(ValueError)
    ensures m >= 1 && |substrings| >= 1 && |freqTable| != m ==> r == Err(ValueError)
    ensures m >= 1 && |substrings| >= 1 && |freqTable| == m && !AllNonEmpty(substrings) ==>
              r == Err(ZeroDivisionError)
    ensures m >= 1 && |substrings| >= 1 && |freqTable| == m && AllNonEmpty(substrings) ==>
              r == Ok(Dedup(Keys(KeyLetters(substrings, freqTable, m))))
  {
    if m < 1 {
      return Err(ValueError);
    }
    if |substrings| < 1 {
      return Err(ValueError);
    }
    if |freqTable| != m {
      return Err(ValueError);
    }
    var keyLetters := CollectKLetters(substrings, freqTable, m);
    if keyLetters.Err? {
      return Err(keyLetters.error);
    }
    assert |keyLetters.value| >= 1 by {
      KeyLettersProperties(substrings, freqTable, m);
    }
    var keys := BuildKeys(keyLetters.value);
    var keyCandidates := DedupKeys(keys);
    return Ok(keyCandidates);
  }

  /** What findPossibleKeys returns: no key twice, exactly the combinations of
      the candidate letters, one per combination, in first-position-major order
      (the final deduplication of vig.py:289-291 removes nothing). */
  lemma CandidatesAreCombinations(substrings: seq<string>, freqTable: seq<real>, m: int)
    requires 1 <= m <= MaxModulus && |freqTable| == m && |substrings| >= 1 && AllNonEmpty(substrings)
    ensures |KeyLetters(substrings, freqTable, m)| >= 1
    ensures Dedup(Keys(KeyLetters(substrings, freqTable, m))) == Keys(KeyLetters(substrings, freqTable, m))
    ensures forall w :: w in Keys(KeyLetters(substrings, freqTable, m)) <==>
              IsCombination(w, KeyLetters(substrings, freqTable, m))
    ensures |Keys(KeyLetters(substrings, freqTable, m))| == Product(KeyLetters(substrings, freqTable, m))
  {
    var kl := KeyLetters(substrings, freqTable, m);
    KeyLettersProperties(substrings, freqTable, m);
    assert AllNoDups(kl) by {
      forall j | 0 <= j < |kl| ensures NoDups(kl[j]) {
        assert kl[j] in kl;
      }
    }
    assert kl[0] in kl;
    KeysNoDups(kl);
    DedupOfNoDups(Keys(kl));
    KeysMembers(kl);
    KeysCount(kl);
  }
}
