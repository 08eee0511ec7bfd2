/** Vigenère decryption with a `Vigkey` (decryptVigCipher, vig.py:90-120). */
module VigDecrypt {
  import opened Common
  import opened VigKey
  import Arith

  /** `chr(((ord(c) - ord(k)) % m) + 97)`: ciphertext letter c under key letter k (vig.py:116-119). */
  function UnshiftChar(c: char, k: char, m: int): (p: char)
    requires 1 <= m <= MaxModulus
    ensures 97 <= p as int < 97 + m
  {
    (((c as int - k as int) % m) + 97) as char
  }

  /** The text decryptVigCipher returns for a key that has already emitted
      `start` letters: ciphertext letter j meets key letter start + j. */
  function VigText(key: seq<char>, isStream: bool, start: nat, ctext: string, m: int): (p: string)
    requires |key| >= 1 && 1 <= m <= MaxModulus
    ensures |p| == |ctext|
  {
    seq(|ctext|, j requires 0 <= j < |ctext| => UnshiftChar(ctext[j], KeyStreamAt(key, isStream, start + j), m))
  }

  /** Decrypting one more character appends its letter under the next key letter. */
  lemma VigTextSnoc(key: seq<char>, isStream: bool, start: nat, ctext: string, j: nat, m: int)
    requires |key| >= 1 && 1 <= m <= MaxModulus && j < |ctext|
    ensures VigText(key, isStream, start, ctext[..j + 1], m) ==
            VigText(key, isStream, start, ctext[..j], m) + [UnshiftChar(ctext[j], KeyStreamAt(key, isStream, start + j), m)]
  {
    var a := VigText(key, isStream, start, ctext[..j + 1], m);
    var b := VigText(key, isStream, start, ctext[..j], m) + [UnshiftChar(ctext[j], KeyStreamAt(key, isStream, start + j), m)];
    forall t | 0 <= t < |a| ensures a[t] == b[t] {
      assert ctext[..j + 1][t] == ctext[t];
      if t < j {
        assert ctext[..j][t] == ctext[t];
      }
    }
  }

  /** Decrypt ctext with the key's next |ctext| letters. The key is left
      advanced and is not reset; callers reset it (vig.py:339, vig.py:383).
      An empty ciphertext is a ValueError and leaves the key untouched. */
  method DecryptVigCipher(key: Vigkey, ctext: string, m: int) returns (r: Result<string>)
    requires key.Valid() && 1 <= m <= MaxModulus
    modifies key
    ensures key.Valid()
    ensures |ctext| == 0 ==> r == Err(ValueError) && key.emitted == old(key.emitted)
                             && key.keyPointer == old(key.keyPointer) && key.keyIncrement == old(key.keyIncrement)
    ensures |ctext| > 0 ==> r == Ok(VigText(key.key, key.isStream, old(key.emitted), ctext, m))
    ensures |ctext| > 0 ==> key.emitted == old(key.emitted) + |ctext|
  {
    if |ctext| < 1 {
      return Err(ValueError);
    }
    ghost var start := key.emitted;
    var newtext := "";
    var j := 0;
    while j < |ctext|
      invariant 0 <= j <= |ctext|
      invariant key.Valid() && key.emitted == start + j
      invariant newtext == VigText(key.key, key.isStream, start, ctext[..j], m)
    {
      var k := key.NextChar();
      VigTextSnoc(key.key, key.isStream, start, ctext, j, m);
      newtext := newtext + [(((ctext[j] as int - k as int) % m) + 97) as char];
      j := j + 1;
    }
    assert ctext[..j] == ctext;
    return Ok(newtext);
  }

  /** The encryption the tool attacks (vig.py:9-13): lowercase plaintext
      letter j is shifted up by key letter j and written in uppercase. */
  function VigEncrypt(key: seq<char>, isStream: bool, ptext: string): (c: string)
    requires |key| >= 1
    ensures |c| == |ptext|
    ensures forall j :: 0 <= j < |c| ==> IsUpper(c[j])
  {
    seq(|ptext|, j requires 0 <= j < |ptext| =>
      (((ptext[j] as int - 97 + KeyStreamAt(key, isStream, j) as int - 65) % 26) + 65) as char)
  }

  /** Unshifting by key letter k undoes shifting a lowercase letter up by k. */
  lemma UnshiftUndoesShift(pc: char, kc: char)
    requires IsLower(pc)
    ensures UnshiftChar((((pc as int - 97 + kc as int - 65) % 26) + 65) as char, kc, 26) == pc
  {
    var p, kv := pc as int - 97, kc as int - 65;
    Arith.ModSubMod(p + kv, kv, 26);
    Arith.ModSmall(p, 26);
  }

  /** Decrypting with a fresh key undoes encryption with the same key, in both modes. */
  lemma RoundTrip(key: seq<char>, isStream: bool, ptext: string)
    requires |key| >= 1
    requires forall j :: 0 <= j < |ptext| ==> IsLower(ptext[j])
    ensures VigText(key, isStream, 0, VigEncrypt(key, isStream, ptext), 26) == ptext
  {
    var c := VigEncrypt(key, isStream, ptext);
    forall j | 0 <= j < |ptext|
      ensures UnshiftChar(c[j], KeyStreamAt(key, isStream, j), 26) == ptext[j]
    {
      UnshiftUndoesShift(ptext[j], KeyStreamAt(key, isStream, j));
    }
  }

  /** In classic mode, the key's own cyclic repetition decrypts to all 'a'. */
  lemma OwnKeyDecryptsToA(key: seq<char>, ctext: string, m: int)
    requires |key| >= 1 && 1 <= m <= MaxModulus
    requires forall j :: 0 <= j < |key| ==> IsUpper(key[j])
    requires forall j :: 0 <= j < |ctext| ==> ctext[j] == key[j % |key|]
    ensures forall j :: 0 <= j < |ctext| ==> VigText(key, false, 0, ctext, m)[j] == 'a'
  {
    forall j | 0 <= j < |ctext|
      ensures VigText(key, false, 0, ctext, m)[j] == 'a'
    {
      ClassicEmitsKey(key, j);
    }
  }
}
