/** The affine cipher of aff.py: the inverse search computeInverse
    (aff.py:12-17), the decryption decryptAffCipher (aff.py:5-10) and the
    body of the brute force over keys (a, b) (aff.py:52-62). Python's `%`
    with a positive modulus agrees with Dafny's, so it is written as `%`. */
module Affine {
  import opened Common
  import Arith

  /** `(a*x) % m`. */
  function MulMod(a: int, x: int, m: int): (r: int)
    requires m >= 1
    ensures 0 <= r < m
  {
    (a * x) % m
  }

  /** The value computeInverse returns when its loop starts at x: the first
      y in [x, m) with (a*y) % m == 1, and 1 when there is none. */
  function InverseFrom(a: int, m: int, x: int): int
    requires x >= 2
    decreases m - x
  {
    if x >= m then 1
    else if MulMod(a, x, m) == 1 then x
    else InverseFrom(a, m, x + 1)
  }

  /** computeInverse(a, m). */
  function Inverse(a: int, m: int): int {
    InverseFrom(a, m, 2)
  }

  /** The search finds the least y in [x, m) that inverts a, and gives 1
      exactly when there is none. */
  lemma {:induction false} InverseFromSpec(a: int, m: int, x: int)
    requires x >= 2
    ensures InverseFrom(a, m, x) == 1 <==> forall y :: x <= y < m ==> MulMod(a, y, m) != 1
    ensures InverseFrom(a, m, x) != 1 ==>
              x <= InverseFrom(a, m, x) < m && MulMod(a, InverseFrom(a, m, x), m) == 1 &&
              forall y :: x <= y < InverseFrom(a, m, x) ==> MulMod(a, y, m) != 1
    decreases m - x
  {
    if x < m && MulMod(a, x, m) != 1 {
      InverseFromSpec(a, m, x + 1);
    }
  }

  /** computeInverse's promises (aff.py:12-17): for m >= 2 the result is in
      [1, m); a result other than 1 inverts a and is the least such number
      from 2 on; 1 comes back exactly when no x in [2, m) inverts a, which
      covers both a = 1 (mod m) and an a with no inverse. */
  lemma InverseSpec(a: int, m: int)
    ensures m >= 2 ==> 1 <= Inverse(a, m) < m
    ensures Inverse(a, m) != 1 ==>
              MulMod(a, Inverse(a, m), m) == 1 &&
              forall y :: 2 <= y < Inverse(a, m) ==> MulMod(a, y, m) != 1
    ensures Inverse(a, m) == 1 <==> forall x :: 2 <= x < m ==> MulMod(a, x, m) != 1
  {
    InverseFromSpec(a, m, 2);
  }

  /** computeInverse (aff.py:12-17), with its early return. */
  method ComputeInverse(a: int, m: int) returns (x: int)
    ensures x == Inverse(a, m)
  {
    x := 2;
    while x < m
      invariant x >= 2
      invariant InverseFrom(a, m, x) == Inverse(a, m)
      decreases m - x
    {
      if (a * x) % m == 1 {
        return x;
      }
      x := x + 1;
    }
    return 1;
  }

  /** a has an inverse modulo m. */
  predicate Invertible(a: int, m: int)
    requires m >= 1
  {
    exists x :: 0 <= x < m && MulMod(a, x, m) == 1
  }

  /** Only the decomposition a % m matters. */
  lemma MulModResidue(a: int, x: int, m: int)
    requires m >= 1
    ensures MulMod(a, x, m) == MulMod(a % m, x, m)
  {
    Arith.ModMulMod(a, x, m);
  }

  /** An inverse found by the search exists, and apart from a = 1 (mod m)
      every inverse is found. */
  lemma InverseFindsUnits(a: int, m: int)
    requires m >= 2
    ensures Inverse(a, m) != 1 <==> Invertible(a, m) && a % m != 1
  {
    InverseSpec(a, m);
    var r := Inverse(a, m);
    if r != 1 {
      assert 0 <= r < m && MulMod(a, r, m) == 1;
      ResidueOneFixes(a, m, r);
    }
    if Invertible(a, m) && a % m != 1 {
      var x :| 0 <= x < m && MulMod(a, x, m) == 1;
      SmallFactors(a, m);
    }
  }

  /** For a = 1 (mod m), multiplying by a fixes every residue. */
  lemma ResidueOneFixes(a: int, m: int, x: int)
    requires m >= 1 && 0 <= x < m
    ensures a % m == 1 ==> MulMod(a, x, m) == x
  {
    MulModResidue(a, x, m);
    Arith.ModSmall(x, m);
  }

  /** Multiplying by 0 gives 0, by 1 gives a % m. */
  lemma SmallFactors(a: int, m: int)
    requires m >= 1
    ensures MulMod(a, 0, m) == 0 && MulMod(a, 1, m) == a % m
  {
  }

  /** An even product leaves an even remainder modulo 26. */
  lemma EvenNotOne(y: int)
    ensures (2 * y) % 26 != 1
  {
    Arith.DivModParts(2 * y, 26);
  }

  /** A multiple of 13 leaves 0 or 13 modulo 26. */
  lemma ThirteenNotOne(y: int)
    ensures (13 * y) % 26 != 1
  {
    Arith.DivModParts(13 * y, 26);
  }

  /** The inverses modulo 26 of the residues coprime to 26. */
  function UnitInverse(u: int): int {
    match u
    case 1 => 1 case 3 => 9 case 5 => 21 case 7 => 15 case 9 => 3 case 11 => 19
    case 15 => 7 case 17 => 23 case 19 => 11 case 21 => 5 case 23 => 17 case 25 => 25
    case _ => 0
  }

  /** The 12 residues modulo 26 that are coprime to 26: the odd ones other than 13. */
  predicate Unit26(u: int) {
    0 <= u < 26 && u % 2 == 1 && u != 13
  }

  /** Modulo 26 exactly the odd residues other than 13 are invertible, with the inverses of UnitInverse. */
  lemma UnitsOf26(a: int)
    ensures Invertible(a, 26) <==> Unit26(a % 26)
    ensures Unit26(a % 26) ==> MulMod(a, UnitInverse(a % 26), 26) == 1
  {
    var u := a % 26;
    MulModResidue(a, UnitInverse(u), 26);
    if Invertible(a, 26) {
      var x :| 0 <= x < 26 && MulMod(a, x, 26) == 1;
      MulModResidue(a, x, 26);
      if u % 2 == 0 {
        assert u * x == 2 * ((u / 2) * x);
        EvenNotOne((u / 2) * x);
      } else if u == 13 {
        ThirteenNotOne(x);
      }
    }
  }

  /** One ciphertext character decrypted under (a, b): the formula of aff.py:9, always a lowercase letter. */
  function AffDecryptChar(c: char, a: int, b: int): (p: char)
    ensures IsLower(p)
  {
    (MulMod((c as int - b - 65) % 26, Inverse(a, 26), 26) + 97) as char
  }

  /** One plaintext letter encrypted under (a, b): 'A' + (a*p + b) mod 26. */
  function AffEncryptChar(p: char, a: int, b: int): (c: char)
    requires IsLower(p)
    ensures IsUpper(c)
  {
    ((a * (p as int - 97) + b) % 26 + 65) as char
  }

  /** The decryption of a whole text. */
  function AffText(a: int, b: int, ctext: string): (p: string)
    ensures |p| == |ctext|
  {
    seq(|ctext|, j requires 0 <= j < |ctext| => AffDecryptChar(ctext[j], a, b))
  }

  /** The encryption of a lowercase text. */
  function AffEncrypt(a: int, b: int, ptext: string): (c: string)
    requires forall j :: 0 <= j < |ptext| ==> IsLower(ptext[j])
    ensures |c| == |ptext|
  {
    seq(|ptext|, j requires 0 <= j < |ptext| => AffEncryptChar(ptext[j], a, b))
  }

  /** decryptAffCipher (aff.py:5-10): the inverse is searched again for every
      character, as in the source, and the output is lowercase. */
  method DecryptAffCipher(a: int, b: int, ctext: string) returns (newtext: string)
    ensures newtext == AffText(a, b, ctext)
    ensures forall j :: 0 <= j < |newtext| ==> IsLower(newtext[j])
  {
    newtext := "";
    var j := 0;
    while j < |ctext|
      invariant 0 <= j <= |ctext|
      invariant newtext == AffText(a, b, ctext[..j])
    {
      var inv := ComputeInverse(a, 26);
      var p := (((((ctext[j] as int - b - 65) % 26) * inv) % 26) + 97) as char;
      assert p == AffDecryptChar(ctext[j], a, b);
      assert AffText(a, b, ctext[..j + 1]) == AffText(a, b, ctext[..j]) + [p] by {
        assert ctext[..j + 1][..j] == ctext[..j];
      }
      newtext := newtext + [p];
      j := j + 1;
    }
    assert ctext[..j] == ctext;
  }

  /** (a*inv) % 26 == 1 makes decryption undo encryption, letter by letter. */
  lemma DecryptsEncryptedChar(p: char, a: int, b: int)
    requires IsLower(p) && MulMod(a, Inverse(a, 26), 26) == 1
    ensures AffDecryptChar(AffEncryptChar(p, a, b), a, b) == p
  {
    var q, inv := p as int - 97, Inverse(a, 26);
    UndoAffine(a, q, b, inv);
  }

  /** The arithmetic of the round trip: with (a*inv) % 26 == 1, multiplying
      a*q + b, less b, by inv gives back q. */
  lemma UndoAffine(a: int, q: int, b: int, inv: int)
    requires 0 <= q < 26 && (a * inv) % 26 == 1
    ensures ((((a * q + b) % 26 - b) % 26) * inv) % 26 == q
  {
    var aq, ai := a * q, a * inv;
    Arith.ModSubMod(aq + b, b, 26);
    assert ((aq + b) % 26 - b) % 26 == aq % 26;
    Arith.ModMulMod(aq, inv, 26);
    assert aq * inv == ai * q by {
      Arith.MulSwap(a, q, inv);
    }
    Arith.ModMulMod(ai, q, 26);
    assert (ai % 26) * q == q;
    Arith.ModSmall(q, 26);
  }

  /** The affine round trip (aff.py:9, aff.py:12-17): for a coprime to 26,
      decrypting 'A' + (a*p + b) mod 26 with key (a, b) gives back 'a' + p. */
  lemma AffRoundTrip(a: int, b: int, ptext: string)
    requires Invertible(a, 26)
    requires forall j :: 0 <= j < |ptext| ==> IsLower(ptext[j])
    ensures AffText(a, b, AffEncrypt(a, b, ptext)) == ptext
  {
    assert MulMod(a, Inverse(a, 26), 26) == 1 by {
      InverseFindsUnits(a, 26);
      InverseSpec(a, 26);
      if a % 26 == 1 {
        MulModResidue(a, 1, 26);
      }
    }
    forall j | 0 <= j < |ptext| ensures AffText(a, b, AffEncrypt(a, b, ptext))[j] == ptext[j] {
      DecryptsEncryptedChar(ptext[j], a, b);
    }
  }

  /** The a-filter of aff.py:53, which always searches modulo 26 whatever m was given. */
  predicate AffTried(a: int) {
    Inverse(a, 26) != 1 || a == 1
  }

  /** The filter keeps 1 and every a invertible modulo 26 except the other
      a = 1 (mod 26); among 1 .. 25 it keeps exactly the 12 units of Z/26. */
  lemma AffTriedUnits(a: int)
    ensures AffTried(a) <==> a == 1 || (Invertible(a, 26) && a % 26 != 1)
    ensures 1 <= a < 26 ==> (AffTried(a) <==> Unit26(a))
  {
    InverseFindsUnits(a, 26);
    UnitsOf26(a);
    if 1 <= a < 26 {
      Arith.ModSmall(a, 26);
    }
  }

  /** For m = 26 the brute force tries exactly 12 values of a. */
  lemma TwelveUnits()
    ensures (set a | 1 <= a < 26 && AffTried(a)) == {1, 3, 5, 7, 9, 11, 15, 17, 19, 21, 23, 25}
  {
    forall a ensures (1 <= a < 26 && AffTried(a)) <==> a in {1, 3, 5, 7, 9, 11, 15, 17, 19, 21, 23, 25} {
      if 1 <= a < 26 {
        AffTriedUnits(a);
      }
    }
  }

  /** A key the brute force prints: a passes the filter and every keyword occurs in the decryption. */
  predicate AffHit(m: int, ctext: string, keywords: seq<string>, k: (int, int)) {
    1 <= k.0 < m && AffTried(k.0) && 0 <= k.1 < m && AllOccur(keywords, AffText(k.0, k.1, ctext))
  }

  /** (a, b) comes before (a', b') in the order the two loops visit them. */
  predicate KeyBefore(k: (int, int), l: (int, int)) {
    k.0 < l.0 || (k.0 == l.0 && k.1 < l.1)
  }

  /** Strictly increasing in the visiting order. */
  predicate InVisitOrder(keys: seq<(int, int)>) {
    forall i, j :: 0 <= i < j < |keys| ==> KeyBefore(keys[i], keys[j])
  }

  /** The brute force of aff.py:52-62, with the printed keys collected in
      order: they are exactly the keys (a, b) in [1, m) x [0, m) that pass the
      filter and whose decryption holds every keyword, listed as the loops
      reach them. */
  method AffBruteForce(m: int, ctext: string, keywords: seq<string>) returns (found: seq<(int, int)>)
    ensures forall k :: k in found <==> AffHit(m, ctext, keywords, k)
    ensures InVisitOrder(found)
  {
    found := [];
    var a := 1;
    while a < m
      invariant a >= 1
      invariant forall k :: k in found <==> AffHit(m, ctext, keywords, k) && k.0 < a
      invariant InVisitOrder(found)
      decreases m - a
    {
      var inv := ComputeInverse(a, 26);
      if inv != 1 || a == 1 {
        found := AffTryRow(m, a, ctext, keywords, found);
      }
      a := a + 1;
    }
  }

  /** The inner loop over b for one a that passed the filter: the hits of row a are appended in order. */
  method AffTryRow(m: int, a: int, ctext: string, keywords: seq<string>, found0: seq<(int, int)>) returns (found: seq<(int, int)>)
    requires 1 <= a < m && AffTried(a)
    requires forall k :: k in found0 ==> k.0 < a
    requires InVisitOrder(found0)
    ensures forall k :: k in found <==> k in found0 || (AffHit(m, ctext, keywords, k) && k.0 == a)
    ensures InVisitOrder(found)
  {
    found := found0;
    var b := 0;
    while b < m
      invariant 0 <= b <= m
      invariant forall k :: k in found <==> k in found0 || (AffHit(m, ctext, keywords, k) && k.0 == a && k.1 < b)
      invariant forall k :: k in found ==> KeyBefore(k, (a, b))
      invariant InVisitOrder(found)
    {
      var decryption := DecryptAffCipher(a, b, ctext);
      var allin := AllKeywordsIn(keywords, decryption);
      if allin {
        found := found + [(a, b)];
      }
      b := b + 1;
    }
  }
}
