/** The exhaustive key search of the Vigenère tool (vig.py:370-389): the
    structural filter on each enumerated key and the keyword test on its
    decryption. The enumeration itself (`itertools.product`) is not modelled;
    `VigTryKey` is the work done for one enumerated key. */
module VigSearch {
  import opened Common
  import opened VigKey
  import opened VigDecrypt

  /** `s[:L//2] == s[L//2:]`: the keys the generator of vig.py:373-379 leaves out. */
  predicate HalfDuplicate(key: string) {
    key[..|key| / 2] == key[|key| / 2..]
  }

  /** The filter skips the empty key, never skips a key of odd length (the two
      slices differ in length), and skips an even-length key exactly when its
      second half repeats its first half. */
  lemma HalfDuplicateCases(key: string)
    ensures |key| == 0 ==> HalfDuplicate(key)
    ensures |key| % 2 == 1 ==> !HalfDuplicate(key)
    ensures |key| % 2 == 0 ==>
              (HalfDuplicate(key) <==> forall i :: 0 <= i < |key| / 2 ==> key[i] == key[i + |key| / 2])
  {
    var h := |key| / 2;
    if |key| % 2 == 0 && forall i :: 0 <= i < h ==> key[i] == key[i + h] {
      assert key[..h] == key[h..] by {
        forall i | 0 <= i < h ensures key[..h][i] == key[h..][i] {
          assert key[h..][i] == key[i + h];
        }
      }
    }
    if |key| % 2 == 0 && HalfDuplicate(key) {
      forall i | 0 <= i < h ensures key[i] == key[i + h] {
        assert key[..h][i] == key[h..][i];
      }
    }
  }

  /** A key is reported when it survives the filter and every keyword occurs in
      its decryption under a fresh key. */
  predicate Reported(key: string, isStream: bool, ctext: string, keywords: seq<string>)
    requires |key| >= 1
  {
    !HalfDuplicate(key) && ctext != [] && AllOccur(keywords, VigText(key, isStream, 0, ctext, 26))
  }

  /** The body of the brute-force loop for one key of the enumeration
      (vig.py:380-389): build a fresh Vigkey, decrypt, reset, test the
      keywords. Ok(Some(decryption)) stands for a printed match, and
      Ok(None) for a key that was skipped or failed the test. An empty
      ciphertext makes decryptVigCipher raise ValueError. */
  method VigTryKey(key: string, isStream: bool, ctext: string, keywords: seq<string>)
    returns (r: Result<Option<string>>)
    requires forall i :: 0 <= i < |key| ==> IsUpper(key[i])
    ensures HalfDuplicate(key) ==> r == Ok(None)
    ensures !HalfDuplicate(key) && ctext == [] ==> r == Err(ValueError)
    ensures !HalfDuplicate(key) && ctext != [] ==>
              |key| >= 1 &&
              r == Ok(if AllOccur(keywords, VigText(key, isStream, 0, ctext, 26))
                      then Some(VigText(key, isStream, 0, ctext, 26)) else None)
    ensures r.Ok? && r.value.Some? <==> |key| >= 1 && Reported(key, isStream, ctext, keywords)
  {
    if HalfDuplicate(key) {
      return Ok(None);
    }
    HalfDuplicateCases(key);
    var vkey := new Vigkey(CharStrings(key), isStream);
    assert vkey.key == key;
    var decryption := DecryptVigCipher(vkey, ctext, 26);
    vkey.Reset();
    if decryption.Err? {
      return Err(decryption.error);
    }
    var allin := AllKeywordsIn(keywords, decryption.value);
    if allin {
      return Ok(Some(decryption.value));
    }
    return Ok(None);
  }

  /** The half-duplicate key "AA" is never tried, whatever it would decrypt to. */
  lemma DoubledKeyNeverReported(ctext: string, keywords: seq<string>, isStream: bool)
    ensures !Reported("AA", isStream, ctext, keywords)
  {
    assert "AA"[..1] == "AA"[1..];
  }

  /** Doubling any key gives a key the filter skips. */
  lemma DoubledKeysSkipped(h: string)
    ensures HalfDuplicate(h + h)
  {
    assert (h + h)[..|h|] == h;
    assert (h + h)[|h|..] == h;
  }
}
