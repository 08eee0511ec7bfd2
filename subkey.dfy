/** The substitution key of sub.py: a dictionary from the 26 uppercase
    cipher letters to plaintext characters, built as the identity
    (sub.py:30-31) and edited by manipulateSubKey (sub.py:16-26), and the
    decryption it defines (decryptSubCipher, sub.py:9-14). Keys are visited in
    insertion order, which is 'A' .. 'Z' because only the identity loop ever
    inserts a key. */
module Substitution {
  import opened Common

  /** The dictionary's keys are exactly the uppercase letters. */
  predicate IsKeyTable(table: map<char, char>) {
    forall c :: c in table <==> IsUpper(c)
  }

  /** No two cipher letters share a plaintext character. */
  predicate Injective(table: map<char, char>) {
    forall a, b :: a in table && b in table && a != b ==> table[a] != table[b]
  }

  /** The last key of ks, in order, whose value is p; None when there is none
      (`oldcipherchar` after the search loop of sub.py:20-23). */
  function LastHolder(table: map<char, char>, ks: seq<char>, p: char): Option<char>
    requires forall i :: 0 <= i < |ks| ==> ks[i] in table
    decreases |ks|
  {
    if ks == [] then None
    else if table[ks[|ks| - 1]] == p then Some(ks[|ks| - 1])
    else LastHolder(table, ks[..|ks| - 1], p)
  }

  /** The search finds nothing exactly when no key holds p, and otherwise a key that holds p. */
  lemma {:induction false} LastHolderSpec(table: map<char, char>, ks: seq<char>, p: char)
    requires forall i :: 0 <= i < |ks| ==> ks[i] in table
    ensures LastHolder(table, ks, p) == None <==> forall i :: 0 <= i < |ks| ==> table[ks[i]] != p
    ensures LastHolder(table, ks, p).Some? ==>
              LastHolder(table, ks, p).value in ks && table[LastHolder(table, ks, p).value] == p
    decreases |ks|
  {
    if ks != [] {
      var init := ks[..|ks| - 1];
      LastHolderSpec(table, init, p);
      assert forall i :: 0 <= i < |init| ==> init[i] == ks[i];
    }
  }

  /** The dictionary after manipulateSubKey(c, p): c maps to p, and the key
      that held p, if any, takes c's old value (sub.py:19-26). */
  function Manipulated(table: map<char, char>, c: char, p: char): map<char, char>
    requires IsKeyTable(table) && c in table
  {
    UpperAlphabetMembers();
    match LastHolder(table, UpperAlphabet, p)
    case None => table[c := p]
    case Some(h) => table[c := p][h := table[c]]
  }

  /** Facts about the search over the whole alphabet. */
  lemma HolderFacts(table: map<char, char>, p: char)
    requires IsKeyTable(table)
    ensures forall i :: 0 <= i < |UpperAlphabet| ==> UpperAlphabet[i] in table
    ensures LastHolder(table, UpperAlphabet, p) == None <==> forall k :: k in table ==> table[k] != p
    ensures LastHolder(table, UpperAlphabet, p).Some? ==>
              LastHolder(table, UpperAlphabet, p).value in table &&
              table[LastHolder(table, UpperAlphabet, p).value] == p
  {
    UpperAlphabetMembers();
    LastHolderSpec(table, UpperAlphabet, p);
    if LastHolder(table, UpperAlphabet, p) == None {
      forall k | k in table ensures table[k] != p {
        assert UpperAlphabet[k as int - 65] == k;
      }
    }
  }

  /** Afterwards c maps to p, also when c already mapped to p. */
  lemma ManipulateSetsTarget(table: map<char, char>, c: char, p: char)
    requires IsKeyTable(table) && c in table
    ensures Manipulated(table, c, p)[c] == p
  {
    HolderFacts(table, p);
  }

  /** The set of keys does not change. */
  lemma ManipulateKeepsKeys(table: map<char, char>, c: char, p: char)
    requires IsKeyTable(table) && c in table
    ensures Manipulated(table, c, p).Keys == table.Keys
    ensures IsKeyTable(Manipulated(table, c, p))
  {
    HolderFacts(table, p);
  }

  /** A swap: only c and the previous holder h of p change, and h receives c's old value. */
  lemma ManipulateSwaps(table: map<char, char>, c: char, p: char)
    requires IsKeyTable(table) && c in table
    ensures forall k :: k in table && k != c && LastHolder(table, UpperAlphabet, p) != Some(k) ==>
              Manipulated(table, c, p)[k] == table[k]
    ensures forall h :: LastHolder(table, UpperAlphabet, p) == Some(h) && h != c ==>
              Manipulated(table, c, p)[h] == table[c]
  {
    HolderFacts(table, p);
  }

  /** If p was nobody's value, only c's entry changes. */
  lemma ManipulateUnused(table: map<char, char>, c: char, p: char)
    requires IsKeyTable(table) && c in table
    requires forall k :: k in table ==> table[k] != p
    ensures Manipulated(table, c, p) == table[c := p]
  {
    HolderFacts(table, p);
  }

  /** An injective key stays injective. */
  lemma ManipulatePreservesInjective(table: map<char, char>, c: char, p: char)
    requires IsKeyTable(table) && c in table && Injective(table)
    ensures Injective(Manipulated(table, c, p))
  {
    HolderFacts(table, p);
    var t := Manipulated(table, c, p);
    match LastHolder(table, UpperAlphabet, p)
    case None =>
      forall a, b | a in t && b in t && a != b ensures t[a] != t[b] {
        if a != c && b != c {
          assert t[a] == table[a] && t[b] == table[b];
        }
      }
    case Some(h) =>
      forall a, b | a in t && b in t && a != b ensures t[a] != t[b] {
        if h == c {
          assert t[a] == table[a] && t[b] == table[b];
        }
      }
  }

  class SubKey {
    var table: map<char, char>

    ghost predicate Valid()
      reads this
    {
      IsKeyTable(table)
    }

    /** `SUBKEY[char] = char` for every uppercase letter (sub.py:30-31). */
    constructor Identity()
      ensures Valid()
      ensures forall c :: c in table ==> table[c] == c
    {
      var subkey: map<char, char> := map[];
      UpperAlphabetMembers();
      var t := 0;
      while t < |UpperAlphabet|
        invariant 0 <= t <= |UpperAlphabet|
        invariant forall c :: c in subkey <==> c in UpperAlphabet[..t]
        invariant forall c :: c in subkey ==> subkey[c] == c
      {
        assert UpperAlphabet[..t + 1] == UpperAlphabet[..t] + [UpperAlphabet[t]];
        subkey := subkey[UpperAlphabet[t] := UpperAlphabet[t]];
        t := t + 1;
      }
      assert UpperAlphabet[..t] == UpperAlphabet;
      table := subkey;
    }

    /** manipulateSubKey(cipherchar, plainchar, self) (sub.py:16-26): a
        KeyError, with nothing changed, when cipherchar is not a key. */
    method Manipulate(cipherchar: char, plainchar: char) returns (r: Result<()>)
      requires Valid()
      modifies this
      ensures Valid()
      ensures cipherchar !in old(table) ==> r == Err(KeyError) && table == old(table)
      ensures cipherchar in old(table) ==> r == Ok(()) && table == Manipulated(old(table), cipherchar, plainchar)
    {
      if cipherchar !in table {
        return Err(KeyError);
      }
      var oldplainchar := table[cipherchar];
      var oldcipherchar: Option<char> := None;
      HolderFacts(table, plainchar);
      var t := 0;
      while t < |UpperAlphabet|
        invariant 0 <= t <= |UpperAlphabet|
        invariant oldcipherchar == LastHolder(table, UpperAlphabet[..t], plainchar)
      {
        var cc := UpperAlphabet[t];
        assert UpperAlphabet[..t + 1][..t] == UpperAlphabet[..t];
        if table[cc] == plainchar {
          oldcipherchar := Some(cc);
        }
        t := t + 1;
      }
      assert UpperAlphabet[..t] == UpperAlphabet;
      ManipulateKeepsKeys(table, cipherchar, plainchar);
      table := table[cipherchar := plainchar];
      if oldcipherchar.Some? {
        table := table[oldcipherchar.value := oldplainchar];
      }
      return Ok(());
    }
  }

  /** Every character of the ciphertext is a key. */
  predicate Covers(key: map<char, char>, ctext: string) {
    forall j :: 0 <= j < |ctext| ==> ctext[j] in key
  }

  /** The decryption of ctext under a key that covers it. */
  function SubText(key: map<char, char>, ctext: string): (p: string)
    requires Covers(key, ctext)
    ensures |p| == |ctext|
  {
    seq(|ctext|, j requires 0 <= j < |ctext| => key[ctext[j]])
  }

  /** decryptSubCipher (sub.py:9-14): a KeyError for a character that is not a key. */
  method DecryptSubCipher(key: map<char, char>, ctext: string) returns (r: Result<string>)
    ensures !Covers(key, ctext) ==> r == Err(KeyError)
    ensures Covers(key, ctext) ==> r == Ok(SubText(key, ctext))
  {
    var newtext := "";
    var j := 0;
    while j < |ctext|
      invariant 0 <= j <= |ctext|
      invariant |newtext| == j
      invariant forall t :: 0 <= t < j ==> ctext[t] in key && newtext[t] == key[ctext[t]]
    {
      if ctext[j] !in key {
        return Err(KeyError);
      }
      newtext := newtext + [key[ctext[j]]];
      j := j + 1;
    }
    assert newtext == SubText(key, ctext);
    return Ok(newtext);
  }

  /** The identity key decrypts uppercase text to itself. */
  lemma IdentityDecrypts(key: map<char, char>, ctext: string)
    requires IsKeyTable(key) && forall c :: c in key ==> key[c] == c
    requires forall j :: 0 <= j < |ctext| ==> IsUpper(ctext[j])
    ensures Covers(key, ctext) && SubText(key, ctext) == ctext
  {
  }

  /** Under an injective key different ciphertexts decrypt to different texts. */
  lemma InjectiveDecryption(key: map<char, char>, c1: string, c2: string)
    requires Injective(key) && Covers(key, c1) && Covers(key, c2)
    requires SubText(key, c1) == SubText(key, c2)
    ensures c1 == c2
  {
    forall j | 0 <= j < |c1| ensures c1[j] == c2[j] {
      assert SubText(key, c1)[j] == SubText(key, c2)[j];
    }
  }

  /** Applying a manipulation changes the decryption only at the characters
      whose entries it changed. */
  lemma ManipulatedDecryption(table: map<char, char>, c: char, p: char, ctext: string)
    requires IsKeyTable(table) && c in table && Covers(table, ctext)
    requires forall j :: 0 <= j < |ctext| ==> ctext[j] != c && Some(ctext[j]) != LastHolder(table, UpperAlphabet, p)
    ensures Covers(Manipulated(table, c, p), ctext)
    ensures SubText(Manipulated(table, c, p), ctext) == SubText(table, ctext)
  {
    ManipulateKeepsKeys(table, c, p);
    ManipulateSwaps(table, c, p);
  }
}
