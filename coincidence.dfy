/** Symbol counts and indices of coincidence of the substrings of a
    Vigenère ciphertext (findIndicesOfCoincidence, vig.py:170-210). The
    index Σ f_v(f_v - 1) / (L(L - 1)) is computed exactly, as a real. */
module Coincidence {
  import opened Common

  /** `(ord(char) - g - 65) % m`: the symbol of Z_m that a character stands for
      once shifted back by g (vig.py:203 with g = 0, vig.py:279). */
  function Residue(c: char, g: int, m: int): (v: int)
    requires m >= 1
    ensures 0 <= v < m
  {
    (c as int - g - 65) % m
  }

  /** The number of characters of s whose residue under shift g is v:
      `fi` of vig.py:201-205, `fgi` of vig.py:277-280. */
  function Count(s: string, v: int, g: int, m: int): (f: nat)
    requires m >= 1
    ensures f <= |s|
    decreases |s|
  {
    if s == [] then 0
    else Count(s[..|s| - 1], v, g, m) + (if Residue(s[|s| - 1], g, m) == v then 1 else 0)
  }

  /** The counting loop over the characters of a substring (vig.py:201-205, vig.py:277-280). */
  method CountSymbol(s: string, v: int, g: int, m: int) returns (f: nat)
    requires m >= 1
    ensures f == Count(s, v, g, m)
  {
    f := 0;
    var j := 0;
    while j < |s|
      invariant 0 <= j <= |s|
      invariant f == Count(s[..j], v, g, m)
    {
      assert s[..j + 1][..j] == s[..j];
      if v == (s[j] as int - g - 65) % m {
        f := f + 1;
      }
      j := j + 1;
    }
    assert s[..|s|] == s;
  }

  /** Σ over v < upto of the counts. */
  function CountSum(s: string, g: int, m: int, upto: nat): nat
    requires m >= 1
    decreases upto
  {
    if upto == 0 then 0 else CountSum(s, g, m, upto - 1) + Count(s, upto - 1, g, m)
  }

  /** Appending a character adds one to the count sum exactly when its residue is counted. */
  lemma {:induction false} CountSumSnoc(s: string, c: char, g: int, m: int, upto: nat)
    requires m >= 1
    ensures CountSum(s + [c], g, m, upto) == CountSum(s, g, m, upto) + (if Residue(c, g, m) < upto then 1 else 0)
    decreases upto
  {
    if upto > 0 {
      CountSumSnoc(s, c, g, m, upto - 1);
      assert (s + [c])[..|s + [c]| - 1] == s;
    }
  }

  lemma {:induction false} CountSumEmpty(g: int, m: int, upto: nat)
    requires m >= 1
    ensures CountSum([], g, m, upto) == 0
    decreases upto
  {
    if upto > 0 {
      CountSumEmpty(g, m, upto - 1);
    }
  }

  /** Every character has exactly one residue in [0, m): the counts sum to L. */
  lemma {:induction false} CountSumTotal(s: string, g: int, m: int)
    requires m >= 1
    ensures CountSum(s, g, m, m) == |s|
    decreases |s|
  {
    if s == [] {
      CountSumEmpty(g, m, m);
    } else {
      var init, c := s[..|s| - 1], s[|s| - 1];
      CountSumTotal(init, g, m);
      assert s == init + [c];
      CountSumSnoc(init, c, g, m, m);
    }
  }

  /** Σ over v < upto of f_v(f_v - 1), where f_v counts residue v (vig.py:200-206). */
  function PairSum(s: string, m: int, upto: nat): nat
    requires m >= 1
    decreases upto
  {
    if upto == 0 then 0
    else PairSum(s, m, upto - 1) + Count(s, upto - 1, 0, m) * (Count(s, upto - 1, 0, m) - 1)
  }

  /** The index of coincidence of a substring of length at least 2 (vig.py:207-208). */
  function IndexOfCoincidence(s: string, m: int): real
    requires m >= 1 && |s| >= 2
  {
    PairSum(s, m, m) as real / (|s| * (|s| - 1)) as real
  }

  /** The pair count never exceeds that of a single bucket holding all the counted characters. */
  lemma PairStep(p: int, s: int, f: int)
    requires s >= 0 && f >= 0 && p <= s * (s - 1)
    ensures p + f * (f - 1) <= (s + f) * (s + f - 1)
  {
    assert (s + f) * (s + f - 1) == s * (s - 1) + f * (f - 1) + 2 * s * f;
  }

  lemma {:induction false} PairSumBelow(s: string, m: int, upto: nat)
    requires m >= 1
    ensures PairSum(s, m, upto) <= CountSum(s, 0, m, upto) * (CountSum(s, 0, m, upto) - 1)
    decreases upto
  {
    if upto > 0 {
      PairSumBelow(s, m, upto - 1);
      PairStep(PairSum(s, m, upto - 1), CountSum(s, 0, m, upto - 1), Count(s, upto - 1, 0, m));
    }
  }

  /** A fraction p/d with 0 <= p <= d lies in [0, 1]; it is 1 exactly when p = d. */
  lemma RatioAtMostOne(p: int, d: int)
    requires 0 <= p <= d && d > 0
    ensures 0.0 <= p as real / d as real <= 1.0
    ensures p == d ==> p as real / d as real == 1.0
  {
    var q := p as real / d as real;
    assert q * d as real == p as real;
  }

  /** The numerator lies in [0, L(L - 1)], so the index lies in [0, 1]. */
  lemma PairSumBounds(s: string, m: int)
    requires m >= 1
    ensures 0 <= PairSum(s, m, m) <= |s| * (|s| - 1)
    ensures |s| >= 2 ==> 0.0 <= IndexOfCoincidence(s, m) <= 1.0
  {
    PairSumBelow(s, m, m);
    CountSumTotal(s, 0, m);
    if |s| >= 2 {
      RatioAtMostOne(PairSum(s, m, m), |s| * (|s| - 1));
    }
  }

  /** No character has residue v: the count of v is 0. */
  lemma {:induction false} CountAbsent(s: string, v: int, g: int, m: int)
    requires m >= 1
    requires forall i :: 0 <= i < |s| ==> Residue(s[i], g, m) != v
    ensures Count(s, v, g, m) == 0
    decreases |s|
  {
    if s != [] {
      CountAbsent(s[..|s| - 1], v, g, m);
    }
  }

  /** Every character has residue v: the count of v is L. */
  lemma {:induction false} CountAll(s: string, v: int, g: int, m: int)
    requires m >= 1
    requires forall i :: 0 <= i < |s| ==> Residue(s[i], g, m) == v
    ensures Count(s, v, g, m) == |s|
    decreases |s|
  {
    if s != [] {
      CountAll(s[..|s| - 1], v, g, m);
    }
  }

  /** No two characters of s share a residue mod m. */
  predicate DistinctResidues(s: string, m: int)
    requires m >= 1
  {
    forall i, j :: 0 <= i < j < |s| ==> Residue(s[i], 0, m) != Residue(s[j], 0, m)
  }

  /** With pairwise distinct residues no count exceeds one. */
  lemma {:induction false} DistinctCountsAtMostOne(s: string, v: int, m: int)
    requires m >= 1 && DistinctResidues(s, m)
    ensures Count(s, v, 0, m) <= 1
    decreases |s|
  {
    if s != [] {
      var init := s[..|s| - 1];
      assert DistinctResidues(init, m) by {
        forall i, j | 0 <= i < j < |init| ensures Residue(init[i], 0, m) != Residue(init[j], 0, m) {
          assert init[i] == s[i] && init[j] == s[j];
        }
      }
      DistinctCountsAtMostOne(init, v, m);
      if Residue(s[|s| - 1], 0, m) == v {
        forall i | 0 <= i < |init| ensures Residue(init[i], 0, m) != v {
          assert init[i] == s[i];
        }
        CountAbsent(init, v, 0, m);
      }
    }
  }

  lemma {:induction false} DistinctPairSumZero(s: string, m: int, upto: nat)
    requires m >= 1 && DistinctResidues(s, m)
    ensures PairSum(s, m, upto) == 0
    decreases upto
  {
    if upto > 0 {
      DistinctPairSumZero(s, m, upto - 1);
      DistinctCountsAtMostOne(s, upto - 1, m);
    }
  }

  /** All symbols distinct mod m: the numerator, and so the index, is 0. */
  lemma DistinctIndexZero(s: string, m: int)
    requires m >= 1 && DistinctResidues(s, m)
    ensures PairSum(s, m, m) == 0
    ensures |s| >= 2 ==> IndexOfCoincidence(s, m) == 0.0
  {
    DistinctPairSumZero(s, m, m);
  }

  lemma {:induction false} SameResiduePairSum(s: string, m: int, v: int, upto: nat)
    requires m >= 1
    requires forall i :: 0 <= i < |s| ==> Residue(s[i], 0, m) == v
    ensures PairSum(s, m, upto) == if 0 <= v < upto then |s| * (|s| - 1) else 0
    decreases upto
  {
    if upto > 0 {
      SameResiduePairSum(s, m, v, upto - 1);
      if upto - 1 == v {
        CountAll(s, v, 0, m);
      } else {
        CountAbsent(s, upto - 1, 0, m);
      }
    }
  }

  /** All symbols equal mod m: the numerator is exactly L(L - 1), and the index is 1. */
  lemma SameResidueIndexOne(s: string, m: int)
    requires m >= 1 && |s| >= 1
    requires forall i :: 0 <= i < |s| ==> Residue(s[i], 0, m) == Residue(s[0], 0, m)
    ensures PairSum(s, m, m) == |s| * (|s| - 1)
    ensures |s| >= 2 ==> IndexOfCoincidence(s, m) == 1.0
  {
    SameResiduePairSum(s, m, Residue(s[0], 0, m), m);
    if |s| >= 2 {
      RatioAtMostOne(PairSum(s, m, m), |s| * (|s| - 1));
    }
  }

  /** One index per substring, in order; ValueError for m < 1 or an empty
      list, and ZeroDivisionError when a substring is shorter than 2
      (vig.py:189-210). */
  method FindIndicesOfCoincidence(substrings: seq<string>, m: int) returns (r: Result<seq<real>>)
    ensures m < 1 ==> r == Err(ValueError)
    ensures m >= 1 && |substrings| == 0 ==> r == Err(ValueError)
    ensures m >= 1 && |substrings| >= 1 && (exists i :: 0 <= i < |substrings| && |substrings[i]| < 2) ==>
              r == Err(ZeroDivisionError)
    ensures m >= 1 && |substrings| >= 1 && (forall i :: 0 <= i < |substrings| ==> |substrings[i]| >= 2) ==>
              r.Ok? && |r.value| == |substrings| &&
              forall i :: 0 <= i < |substrings| ==> r.value[i] == IndexOfCoincidence(substrings[i], m)
  {
    if m < 1 {
      return Err(ValueError);
    }
    if |substrings| < 1 {
      return Err(ValueError);
    }
    var indices: seq<real> := [];
    var j := 0;
    while j < |substrings|
      invariant 0 <= j <= |substrings|
      invariant forall t :: 0 <= t < j ==> |substrings[t]| >= 2
      invariant |indices| == j
      invariant forall t :: 0 <= t < j ==> indices[t] == IndexOfCoincidence(substrings[t], m)
    {
      var index := SubstringIndex(substrings[j], m);
      if index.Err? {
        return Err(index.error);
      }
      indices := indices + [index.value];
      j := j + 1;
    }
    return Ok(indices);
  }

  /** The body of the loop of vig.py:200-209 for one substring: the sum over
      the symbols, then the division, a ZeroDivisionError below two letters. */
  method SubstringIndex(substring: string, m: int) returns (r: Result<real>)
    requires m >= 1
    ensures |substring| < 2 ==> r == Err(ZeroDivisionError)
    ensures |substring| >= 2 ==> r == Ok(IndexOfCoincidence(substring, m))
  {
    var index: int := 0;
    var i := 0;
    while i < m
      invariant 0 <= i <= m
      invariant index == PairSum(substring, m, i)
    {
      var fi := CountSymbol(substring, i, 0, m);
      index := index + fi * (fi as int - 1);
      i := i + 1;
    }
    var denominator := |substring| * (|substring| - 1);
    if denominator == 0 {
      return Err(ZeroDivisionError);
    }
    assert |substring| >= 2;
    return Ok(index as real / denominator as real);
  }

  /** A run of one letter has index 1. */
  lemma RunIndexOne()
    ensures IndexOfCoincidence("AAAA", 26) == 1.0
  {
    var s := "AAAA";
    assert forall i :: 0 <= i < |s| ==> s[i] == 'A';
    SameResidueIndexOne(s, 26);
  }

  /** Four different letters have index 0. */
  lemma DistinctIndexExample()
    ensures IndexOfCoincidence("ABCD", 26) == 0.0
  {
    var s := "ABCD";
    assert DistinctResidues(s, 26) by {
      assert s[0] as int == 65 && s[1] as int == 66 && s[2] as int == 67 && s[3] as int == 68;
      assert Residue(s[0], 0, 26) == 0 && Residue(s[1], 0, 26) == 1;
      assert Residue(s[2], 0, 26) == 2 && Residue(s[3], 0, 26) == 3;
    }
    DistinctIndexZero(s, 26);
  }
}
