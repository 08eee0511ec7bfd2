/** The Vigenère key of vig.py (class `Vigkey`, vig.py:23-88): a key word
    read cyclically, which in stream mode shifts every letter up by one more
    each time the cursor rolls over. The ring is fixed to Z26 on uppercase
    ASCII (`self.m = 26`, `self.ordOffset = 65`). */
module VigKey {
  import opened Common
  import Arith

  /** What `__init__` accepts (vig.py:44-48): a non-empty list whose every element is a string of length one. */
  predicate WellFormedMaterial(material: seq<string>) {
    |material| >= 1 && forall i :: 0 <= i < |material| ==> |material[i]| == 1
  }

  /** `[char.upper() for char in key]` (vig.py:49). */
  function UpperKey(material: seq<string>): seq<char>
    requires forall i :: 0 <= i < |material| ==> |material[i]| == 1
  {
    seq(|material|, i requires 0 <= i < |material| => Upper(material[i][0]))
  }

  /** A string iterated as Python does: a list of one-character strings. */
  function CharStrings(s: string): (material: seq<string>)
    ensures |material| == |s|
    ensures forall i :: 0 <= i < |s| ==> material[i] == [s[i]]
  {
    seq(|s|, i requires 0 <= i < |s| => [s[i]])
  }

  /** `chr(((ord(c) + increment - 65) % 26) + 65)`, the letter `nextChar` emits (vig.py:71-78). */
  function ShiftKeyChar(c: char, increment: int): (r: char)
    ensures IsUpper(r)
    ensures r as int - 65 == (c as int + increment - 65) % 26
  {
    (((c as int + increment - 65) % 26) + 65) as char
  }

  /** The i-th letter a freshly built or freshly reset key emits:
      key[i mod len] shifted by the number of completed rounds (mod 26) in
      stream mode, and unshifted in classic mode. */
  function KeyStreamAt(key: seq<char>, isStream: bool, i: nat): char
    requires |key| >= 1
  {
    ShiftKeyChar(key[i % |key|], if isStream then (i / |key|) % 26 else 0)
  }

  class Vigkey {
    const key: seq<char>
    const isStream: bool
    var keyPointer: int
    var keyIncrement: int
    const m: int := 26
    const ordOffset: int := 65
    /** The number of `nextChar` calls since construction or the last `reset`. */
    ghost var emitted: nat

    /** The cursor and the drift are those reached after `emitted` steps from (0, 0). */
    ghost predicate Valid()
      reads this
    {
      |key| >= 1 &&
      keyPointer == emitted % |key| &&
      keyIncrement == (if isStream then (emitted / |key|) % m else 0)
    }

    /** `Vigkey(key, isStream)` once the checks of vig.py:44-48 have passed (vig.py:49-54). */
    constructor (material: seq<string>, isStream: bool)
      requires WellFormedMaterial(material)
      ensures Valid()
      ensures key == UpperKey(material) && this.isStream == isStream
      ensures keyPointer == 0 && keyIncrement == 0 && emitted == 0
    {
      key := UpperKey(material);
      this.isStream := isStream;
      keyPointer := 0;
      keyIncrement := 0;
      emitted := 0;
    }

    /** Emit the current key letter shifted by the drift, then advance the
        cursor; in stream mode a roll-over to 0 raises the drift (vig.py:68-82). */
    method NextChar() returns (c: char)
      requires Valid()
      modifies this
      ensures Valid()
      ensures c == ShiftKeyChar(key[old(keyPointer)], old(keyIncrement))
      ensures c == KeyStreamAt(key, isStream, old(emitted))
      ensures emitted == old(emitted) + 1
      ensures keyPointer == (old(keyPointer) + 1) % |key|
      ensures keyIncrement == if isStream && keyPointer == 0 then (old(keyIncrement) + 1) % 26
                              else old(keyIncrement)
      ensures 0 <= keyPointer < |key| && 0 <= keyIncrement < 26
      ensures !isStream ==> keyIncrement == 0
    {
      StepDivMod(emitted, |key|);
      c := ((((key[keyPointer] as int + keyIncrement) - ordOffset) % m) + ordOffset) as char;
      keyPointer := (keyPointer + 1) % |key|;
      if keyPointer == 0 && isStream {
        Arith.ModAddMod(emitted / |key|, 1, 26);
        keyIncrement := (keyIncrement + 1) % m;
      }
      emitted := emitted + 1;
    }

    /** Set the key pointer and the stream increment back to 0 (vig.py:84-88). */
    method Reset()
      requires Valid()
      modifies this
      ensures Valid()
      ensures keyPointer == 0 && keyIncrement == 0 && emitted == 0
    {
      keyPointer := 0;
      keyIncrement := 0;
      emitted := 0;
    }
  }

  /** `Vigkey(key, isStream)` with its checks: a ValueError for an empty key or
      for an element that is not a one-character string (vig.py:44-54). */
  method NewVigkey(material: seq<string>, isStream: bool) returns (r: Result<Vigkey>)
    ensures r.Err? <==> !WellFormedMaterial(material)
    ensures r.Err? ==> r.error == ValueError
    ensures r.Ok? ==> fresh(r.value) && r.value.Valid() && r.value.emitted == 0
    ensures r.Ok? ==> r.value.key == UpperKey(material) && r.value.isStream == isStream
    ensures r.Ok? ==> r.value.keyPointer == 0 && r.value.keyIncrement == 0
  {
    if |material| < 1 {
      return Err(ValueError);
    }
    var i := 0;
    while i < |material|
      invariant 0 <= i <= |material|
      invariant forall j :: 0 <= j < i ==> |material[j]| == 1
    {
      if |material[i]| != 1 {
        return Err(ValueError);
      }
      i := i + 1;
    }
    var k := new Vigkey(material, isStream);
    return Ok(k);
  }

  /** How one more step moves the quotient and remainder of the step count. */
  lemma StepDivMod(e: nat, len: nat)
    requires len >= 1
    ensures (e + 1) % len == (e % len + 1) % len
    ensures (e + 1) % len == 0 ==> (e + 1) / len == e / len + 1
    ensures (e + 1) % len != 0 ==> (e + 1) / len == e / len
  {
    var q, r := e / len, e % len;
    if r + 1 < len {
      Arith.DivModUnique(e + 1, len, q, r + 1);
      Arith.ModSmall(r + 1, len);
    } else {
      assert e + 1 == (q + 1) * len + 0;
      Arith.DivModUnique(e + 1, len, q + 1, 0);
      Arith.DivModUnique(r + 1, len, 1, 0);
    }
  }

  /** Classic mode is periodic: after len(key) letters the key word starts over. */
  lemma ClassicPeriodic(key: seq<char>, i: nat)
    requires |key| >= 1
    ensures KeyStreamAt(key, false, i + |key|) == KeyStreamAt(key, false, i)
  {
    Arith.ModAddMultiple(i, 1, |key|);
  }

  /** For an uppercase key, classic mode emits the key word itself, cyclically. */
  lemma ClassicEmitsKey(key: seq<char>, i: nat)
    requires |key| >= 1
    requires forall j :: 0 <= j < |key| ==> IsUpper(key[j])
    ensures KeyStreamAt(key, false, i) == key[i % |key|]
  {
    var c := key[i % |key|];
    Arith.ModSmall(c as int - 65, 26);
  }

  /** In stream mode, letter j of round r is key[j] shifted by r (mod 26),
      i.e. the classic letter at that position shifted by r. */
  lemma StreamDrift(key: seq<char>, r: nat, j: nat)
    requires j < |key|
    ensures KeyStreamAt(key, true, r * |key| + j) == ShiftKeyChar(key[j], r % 26)
    ensures KeyStreamAt(key, true, r * |key| + j) == ShiftKeyChar(KeyStreamAt(key, false, j), r)
  {
    Arith.DivModUnique(r * |key| + j, |key|, r, j);
    Arith.DivModUnique(j, |key|, 0, j);
    var c := key[j] as int;
    Arith.ModAddMod(c - 65, r, 26);
    Arith.ModAddMod(c + r - 65, 0, 26);
    Arith.ModAddMod(r, c - 65, 26);
    assert (c + r % 26 - 65) % 26 == (c + r - 65) % 26;
  }

  /** After r complete rounds the cursor is back at 0 and the drift is r mod 26
      in stream mode, 0 in classic mode. */
  lemma DriftAfterRounds(k: Vigkey, r: nat)
    requires k.Valid() && k.emitted == r * |k.key|
    ensures k.keyPointer == 0
    ensures k.keyIncrement == if k.isStream then r % 26 else 0
  {
    Arith.DivModUnique(r * |k.key|, |k.key|, r, 0);
  }
}
