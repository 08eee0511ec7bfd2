/** The brute-force completion of a partial substitution key (sub.py:58-81):
    the cipher letters still mapped to an uppercase letter are unknown, the
    lowercase letters not yet used are free, and each permutation of the
    unknown letters is paired, position by position, with the free letters.
    The enumeration of the permutations (`itertools.permutations`) is not
    modelled; `AssignPermutation` and `SubTryPermutation` are the work done
    for one permutation. */
module SubSearch {
  import opened Common
  import opened Substitution

  /** Strictly increasing, hence without duplicates (what `sort()` leaves). */
  predicate Sorted(s: seq<char>) {
    forall i, j :: 0 <= i < j < |s| ==> s[i] < s[j]
  }

  /** Python's `list.remove(x)` for an x that occurs: drop its first occurrence. */
  function RemoveFirst(s: seq<char>, x: char): (r: seq<char>)
    decreases |s|
  {
    if s == [] then []
    else if s[0] == x then s[1..]
    else [s[0]] + RemoveFirst(s[1..], x)
  }

  /** The tail of a sorted list is sorted, and its head is below every later element. */
  lemma SortedTail(s: seq<char>)
    requires s != [] && Sorted(s)
    ensures Sorted(s[1..])
    ensures forall c :: c in s[1..] ==> s[0] < c
  {
    forall c | c in s[1..] ensures s[0] < c {
      var k :| 0 <= k < |s[1..]| && s[1..][k] == c;
      assert s[k + 1] == c;
    }
  }

  /** Removing x from a list that holds it loses one element and adds none. */
  lemma {:induction false} RemoveFirstShrinks(s: seq<char>, x: char)
    requires x in s
    ensures |RemoveFirst(s, x)| == |s| - 1
    ensures forall c :: c in RemoveFirst(s, x) ==> c in s
    decreases |s|
  {
    if s[0] != x {
      RemoveFirstShrinks(s[1..], x);
    }
  }

  /** Removing x from a sorted list keeps it sorted, loses one element, and
      keeps every other element. */
  lemma {:induction false} RemoveFirstProperties(s: seq<char>, x: char)
    requires Sorted(s) && x in s
    ensures Sorted(RemoveFirst(s, x))
    ensures |RemoveFirst(s, x)| == |s| - 1
    ensures forall c :: c in RemoveFirst(s, x) <==> c in s && c != x
    decreases |s|
  {
    RemoveFirstShrinks(s, x);
    SortedTail(s);
    if s[0] != x {
      var t := s[1..];
      RemoveFirstProperties(t, x);
      var r := RemoveFirst(t, x);
      forall i, j | 0 <= i < j < |[s[0]] + r| ensures ([s[0]] + r)[i] < ([s[0]] + r)[j] {
        if i == 0 {
          assert ([s[0]] + r)[j] == r[j - 1] && r[j - 1] in r;
        } else {
          assert ([s[0]] + r)[i] == r[i - 1] && ([s[0]] + r)[j] == r[j - 1];
        }
      }
    }
  }

  /** unknownKeys and unknownVals once the scan is done. */
  datatype Partition = Partition(unknownKeys: seq<char>, unknownVals: seq<char>)

  /** The loop of sub.py:63-67 over the keys ks, in order: a key whose value
      is uppercase is unknown; any other value is removed from the free
      lowercase letters, a ValueError when it is not there. */
  function Scan(table: map<char, char>, ks: seq<char>): Result<Partition>
    requires forall i :: 0 <= i < |ks| ==> ks[i] in table
    decreases |ks|
  {
    if ks == [] then Ok(Partition([], LowerAlphabet))
    else
      match Scan(table, ks[..|ks| - 1])
      case Err(e) => Err(e)
      case Ok(part) =>
        var k := ks[|ks| - 1];
        if IsUpper(table[k]) then Ok(Partition(part.unknownKeys + [k], part.unknownVals))
        else if table[k] in part.unknownVals then Ok(Partition(part.unknownKeys, RemoveFirst(part.unknownVals, table[k])))
        else Err(ValueError)
  }

  /** Every key of ks whose value is not uppercase maps to a lowercase
      letter, and no two such keys share one. */
  predicate KnownDistinctLower(table: map<char, char>, ks: seq<char>)
    requires forall i :: 0 <= i < |ks| ==> ks[i] in table
  {
    (forall i :: 0 <= i < |ks| && !IsUpper(table[ks[i]]) ==> IsLower(table[ks[i]])) &&
    (forall i, j :: 0 <= i < j < |ks| && !IsUpper(table[ks[i]]) && !IsUpper(table[ks[j]]) ==> table[ks[i]] != table[ks[j]])
  }

  /** c is a lowercase letter that no key of ks maps to. */
  predicate Free(table: map<char, char>, ks: seq<char>, c: char)
    requires forall i :: 0 <= i < |ks| ==> ks[i] in table
  {
    IsLower(c) && forall i :: 0 <= i < |ks| ==> table[ks[i]] != c
  }

  /** The number of keys of ks whose value is not uppercase. */
  function KnownCount(table: map<char, char>, ks: seq<char>): nat
    requires forall i :: 0 <= i < |ks| ==> ks[i] in table
    decreases |ks|
  {
    if ks == [] then 0
    else KnownCount(table, ks[..|ks| - 1]) + (if IsUpper(table[ks[|ks| - 1]]) then 0 else 1)
  }

  /** Extending ks by one key k keeps the known values distinct exactly when
      k is unknown, or maps to a lowercase letter still free. */
  lemma KnownDistinctLowerSnoc(table: map<char, char>, ks: seq<char>)
    requires ks != [] && forall i :: 0 <= i < |ks| ==> ks[i] in table
    ensures var init, k := ks[..|ks| - 1], ks[|ks| - 1];
            (forall c :: Free(table, ks, c) <==> Free(table, init, c) && table[k] != c) &&
            (KnownDistinctLower(table, ks) <==>
             KnownDistinctLower(table, init) && (IsUpper(table[k]) || Free(table, init, table[k])))
  {
    var init, k := ks[..|ks| - 1], ks[|ks| - 1];
    assert forall i :: 0 <= i < |init| ==> init[i] == ks[i];
    if KnownDistinctLower(table, ks) && !IsUpper(table[k]) {
      forall i | 0 <= i < |init| ensures table[init[i]] != table[k] {
        if !IsUpper(table[init[i]]) {
          assert table[ks[i]] != table[ks[|ks| - 1]];
        }
      }
    }
  }

  /** What the scan does with the values: it succeeds exactly when the known
      values are distinct lowercase letters, and then unknownVals lists, in
      increasing order, the free lowercase letters, one fewer per known key. */
  lemma {:induction false} ScanValues(table: map<char, char>, ks: seq<char>)
    requires forall i :: 0 <= i < |ks| ==> ks[i] in table
    ensures Scan(table, ks).Ok? <==> KnownDistinctLower(table, ks)
    ensures Scan(table, ks).Ok? ==>
              var uv := Scan(table, ks).value.unknownVals;
              Sorted(uv) && |uv| == 26 - KnownCount(table, ks) &&
              forall c :: c in uv <==> Free(table, ks, c)
    decreases |ks|
  {
    LowerAlphabetMembers();
    if ks == [] {
      assert Sorted(LowerAlphabet);
    } else {
      var init, k := ks[..|ks| - 1], ks[|ks| - 1];
      ScanValues(table, init);
      KnownDistinctLowerSnoc(table, ks);
      if Scan(table, init).Ok? {
        var uv := Scan(table, init).value.unknownVals;
        if !IsUpper(table[k]) && table[k] in uv {
          RemoveFirstProperties(uv, table[k]);
        }
      }
    }
  }

  /** What the scan does with the keys: unknownKeys lists, in the order of
      ks, the keys whose value is uppercase. */
  lemma {:induction false} ScanKeys(table: map<char, char>, ks: seq<char>)
    requires forall i :: 0 <= i < |ks| ==> ks[i] in table
    requires Scan(table, ks).Ok?
    ensures var uk := Scan(table, ks).value.unknownKeys;
            (forall k :: k in uk <==> k in ks && IsUpper(table[k])) &&
            |uk| == |ks| - KnownCount(table, ks) &&
            (Sorted(ks) ==> Sorted(uk))
    decreases |ks|
  {
    if ks != [] {
      var init, k := ks[..|ks| - 1], ks[|ks| - 1];
      ScanKeys(table, init);
      assert forall x :: x in ks <==> x in init || x == k;
      var uk := Scan(table, init).value.unknownKeys;
      if Sorted(ks) {
        assert Sorted(init);
        forall x | x in uk ensures x < k {
          var i :| 0 <= i < |init| && init[i] == x;
        }
        if IsUpper(table[k]) {
          var uk' := uk + [k];
          forall i, j | 0 <= i < j < |uk'| ensures uk'[i] < uk'[j] {
            if j == |uk| {
              assert uk'[i] == uk[i] && uk[i] in uk;
            } else {
              assert uk'[i] == uk[i] && uk'[j] == uk[j];
            }
          }
        }
      }
    }
  }

  /** The scan over the 26 letters, in terms of the letters themselves: on
      success both lists are sorted and equally long, the unknown keys are the
      letters with an uppercase value, the free letters are the lowercase
      letters nobody maps to, and the known values are distinct lowercase
      letters. */
  lemma ScanFacts(table: map<char, char>)
    requires IsKeyTable(table)
    ensures forall i :: 0 <= i < |UpperAlphabet| ==> UpperAlphabet[i] in table
    ensures Scan(table, UpperAlphabet).Ok? <==>
              (forall k :: k in table && !IsUpper(table[k]) ==> IsLower(table[k])) &&
              (forall a, b :: a in table && b in table && a != b && !IsUpper(table[a]) && !IsUpper(table[b]) ==> table[a] != table[b])
    ensures Scan(table, UpperAlphabet).Ok? ==>
              var part := Scan(table, UpperAlphabet).value;
              Sorted(part.unknownKeys) && Sorted(part.unknownVals) &&
              |part.unknownKeys| == |part.unknownVals| &&
              (forall k :: k in part.unknownKeys <==> k in table && IsUpper(table[k])) &&
              (forall c :: c in part.unknownVals <==> IsLower(c) && forall k :: k in table ==> table[k] != c)
  {
    AlphabetKeys(table);
    ScanValues(table, UpperAlphabet);
    KnownDistinctOverAlphabet(table);
    if Scan(table, UpperAlphabet).Ok? {
      ScanKeys(table, UpperAlphabet);
      AlphabetSorted();
      forall c ensures Free(table, UpperAlphabet, c) <==> IsLower(c) && forall k :: k in table ==> table[k] != c {
        FreeOverAlphabet(table, c);
      }
    }
  }

  /** The keys of a key table are the letters 'A' .. 'Z'. */
  lemma AlphabetKeys(table: map<char, char>)
    requires IsKeyTable(table)
    ensures forall i :: 0 <= i < |UpperAlphabet| ==> UpperAlphabet[i] in table
    ensures forall k :: k in UpperAlphabet <==> k in table
  {
    UpperAlphabetMembers();
  }

  /** KnownDistinctLower over the whole alphabet, stated over the keys of the table. */
  lemma KnownDistinctOverAlphabet(table: map<char, char>)
    requires IsKeyTable(table)
    ensures forall i :: 0 <= i < |UpperAlphabet| ==> UpperAlphabet[i] in table
    ensures KnownDistinctLower(table, UpperAlphabet) <==>
              (forall k :: k in table && !IsUpper(table[k]) ==> IsLower(table[k])) &&
              (forall a, b :: a in table && b in table && a != b && !IsUpper(table[a]) && !IsUpper(table[b]) ==> table[a] != table[b])
  {
    AlphabetKeys(table);
    if KnownDistinctLower(table, UpperAlphabet) {
      forall k | k in table && !IsUpper(table[k]) ensures IsLower(table[k]) {
        AlphabetIndex(k);
      }
      forall a, b | a in table && b in table && a != b && !IsUpper(table[a]) && !IsUpper(table[b])
        ensures table[a] != table[b]
      {
        AlphabetIndex(a);
        AlphabetIndex(b);
        if a < b {
          assert UpperAlphabet[a as int - 65] == a && UpperAlphabet[b as int - 65] == b;
        } else {
          assert UpperAlphabet[b as int - 65] == b && UpperAlphabet[a as int - 65] == a;
        }
      }
    }
  }

  /** Letter k sits at position k - 'A' of the alphabet. */
  lemma AlphabetIndex(k: char)
    requires IsUpper(k)
    ensures 0 <= k as int - 65 < |UpperAlphabet| && UpperAlphabet[k as int - 65] == k
  {
    UpperAlphabetMembers();
  }

  /** 'A' .. 'Z' is in increasing order. */
  lemma AlphabetSorted()
    ensures Sorted(UpperAlphabet)
  {
    UpperAlphabetMembers();
  }

  /** Free over the whole alphabet, stated over the keys of the table. */
  lemma FreeOverAlphabet(table: map<char, char>, c: char)
    requires IsKeyTable(table)
    ensures forall i :: 0 <= i < |UpperAlphabet| ==> UpperAlphabet[i] in table
    ensures Free(table, UpperAlphabet, c) <==> IsLower(c) && forall k :: k in table ==> table[k] != c
  {
    AlphabetKeys(table);
    if Free(table, UpperAlphabet, c) {
      forall k | k in table ensures table[k] != c {
        AlphabetIndex(k);
      }
    }
  }

  /** With all 26 keys scanned and no error, there are as many unknown keys as free letters (sub.py:72-73). */
  lemma UnknownsMatch(table: map<char, char>)
    requires IsKeyTable(table)
    requires Scan(table, UpperAlphabet).Ok?
    ensures |Scan(table, UpperAlphabet).value.unknownKeys| == |Scan(table, UpperAlphabet).value.unknownVals|
  {
    ScanFacts(table);
  }

  /** The scan and the two sorts of sub.py:60-69. The keys are visited in
      insertion order 'A' .. 'Z'; both lists come out of the scan already in
      increasing order (ScanFacts), so the sorts leave them unchanged. */
  method PartitionUnknowns(subkey: SubKey) returns (r: Result<Partition>)
    requires subkey.Valid()
    ensures r == Scan(subkey.table, UpperAlphabet)
  {
    var table := subkey.table;
    UpperAlphabetMembers();
    var unknownKeys: seq<char> := [];
    var unknownVals: seq<char> := LowerAlphabet;
    var t := 0;
    while t < |UpperAlphabet|
      invariant 0 <= t <= |UpperAlphabet|
      invariant Scan(table, UpperAlphabet[..t]) == Ok(Partition(unknownKeys, unknownVals))
    {
      var k := UpperAlphabet[t];
      assert UpperAlphabet[..t + 1][..t] == UpperAlphabet[..t];
      if IsUpper(table[k]) {
        unknownKeys := unknownKeys + [k];
      } else {
        if table[k] !in unknownVals {
          ScanStopped(table, UpperAlphabet, t + 1);
          return Err(ValueError);
        }
        unknownVals := RemoveFirst(unknownVals, table[k]);
      }
      t := t + 1;
    }
    assert UpperAlphabet[..t] == UpperAlphabet;
    return Ok(Partition(unknownKeys, unknownVals));
  }

  /** Once the scan fails on a prefix, it fails on the whole list. */
  lemma {:induction false} ScanStopped(table: map<char, char>, ks: seq<char>, n: nat)
    requires forall i :: 0 <= i < |ks| ==> ks[i] in table
    requires n <= |ks| && Scan(table, ks[..n]) == Err(ValueError)
    ensures Scan(table, ks) == Err(ValueError)
    decreases |ks| - n
  {
    if n < |ks| {
      assert ks[..n + 1][..n] == ks[..n];
      ScanStopped(table, ks, n + 1);
    } else {
      assert ks[..n] == ks;
    }
  }

  /** `tempKey[k[x]] = unknownVals[x]` for x < n (sub.py:72-73). */
  function Assigned(temp: map<char, char>, perm: seq<char>, vals: seq<char>, n: nat): map<char, char>
    requires n <= |perm| && n <= |vals|
    decreases n
  {
    if n == 0 then temp else Assigned(temp, perm, vals, n - 1)[perm[n - 1] := vals[n - 1]]
  }

  /** After the assignment, perm[x] holds vals[x] and every other key keeps its value. */
  lemma {:induction false} AssignedAt(temp: map<char, char>, perm: seq<char>, vals: seq<char>, n: nat)
    requires n <= |perm| && n <= |vals| && NoDups(perm)
    ensures forall x :: 0 <= x < n ==> perm[x] in Assigned(temp, perm, vals, n) && Assigned(temp, perm, vals, n)[perm[x]] == vals[x]
    ensures forall k :: k !in perm[..n] ==>
              (k in Assigned(temp, perm, vals, n) <==> k in temp) &&
              (k in temp ==> Assigned(temp, perm, vals, n)[k] == temp[k])
    decreases n
  {
    if n > 0 {
      AssignedAt(temp, perm, vals, n - 1);
      assert perm[..n] == perm[..n - 1] + [perm[n - 1]];
    }
  }

  /** The assignment loop of sub.py:72-73 for one permutation: an IndexError
      when there are more free letters than keys in the permutation. */
  method AssignPermutation(temp: map<char, char>, perm: seq<char>, vals: seq<char>) returns (r: Result<map<char, char>>)
    ensures |vals| > |perm| ==> r == Err(IndexError)
    ensures |vals| <= |perm| ==> r == Ok(Assigned(temp, perm, vals, |vals|))
  {
    var tempKey := temp;
    var x := 0;
    while x < |vals|
      invariant 0 <= x <= |vals| && x <= |perm|
      invariant tempKey == Assigned(temp, perm, vals, x)
    {
      if x >= |perm| {
        return Err(IndexError);
      }
      tempKey := tempKey[perm[x] := vals[x]];
      x := x + 1;
      if x == |vals| {
        break;
      }
      if x >= |perm| {
        return Err(IndexError);
      }
    }
    return Ok(tempKey);
  }

  /** perm orders the distinct keys of uk (what `itertools.permutations` yields for a duplicate-free list). */
  predicate IsPermutationOf(perm: seq<char>, uk: seq<char>) {
    |perm| == |uk| && NoDups(perm) && forall k :: k in perm <==> k in uk
  }

  /** Completing a key whose letters passed the scan: for every permutation of
      the unknown keys, the assignment succeeds and yields a key in which
      every letter maps to a lowercase letter, no two letters share one, and
      the known letters keep their values. tempKey may carry the values of an
      earlier permutation: only the known letters need to agree with SUBKEY. */
  lemma CompletionIsBijection(table: map<char, char>, temp: map<char, char>, perm: seq<char>)
    requires IsKeyTable(table) && Scan(table, UpperAlphabet).Ok?
    requires temp.Keys == table.Keys
    requires forall k :: k in table && !IsUpper(table[k]) ==> temp[k] == table[k]
    requires IsPermutationOf(perm, Scan(table, UpperAlphabet).value.unknownKeys)
    ensures |Scan(table, UpperAlphabet).value.unknownVals| == |perm|
    ensures var done := Assigned(temp, perm, Scan(table, UpperAlphabet).value.unknownVals, |perm|);
            done.Keys == table.Keys &&
            (forall k :: k in table && !IsUpper(table[k]) ==> done[k] == table[k]) &&
            (forall k :: k in done ==> IsLower(done[k])) &&
            Injective(done)
  {
    ScanFacts(table);
    var uv := Scan(table, UpperAlphabet).value.unknownVals;
    assert NoDups(uv);
    CompleteKey(table, temp, perm, uv);
  }

  /** The step of CompletionIsBijection that no longer depends on the scan:
      distinct free letters assigned to the distinct unknown keys. */
  lemma CompleteKey(table: map<char, char>, temp: map<char, char>, perm: seq<char>, uv: seq<char>)
    requires temp.Keys == table.Keys
    requires forall k :: k in table && !IsUpper(table[k]) ==> temp[k] == table[k] && IsLower(table[k])
    requires forall a, b :: a in table && b in table && a != b && !IsUpper(table[a]) && !IsUpper(table[b]) ==> table[a] != table[b]
    requires |perm| == |uv| && NoDups(perm) && NoDups(uv)
    requires forall k :: k in perm <==> k in table && IsUpper(table[k])
    requires forall c :: c in uv ==> IsLower(c) && forall k :: k in table ==> table[k] != c
    ensures var done := Assigned(temp, perm, uv, |perm|);
            done.Keys == table.Keys &&
            (forall k :: k in table && !IsUpper(table[k]) ==> done[k] == table[k]) &&
            (forall k :: k in done ==> IsLower(done[k])) &&
            Injective(done)
  {
    AssignedAt(temp, perm, uv, |perm|);
    assert perm[..|perm|] == perm;
    var done := Assigned(temp, perm, uv, |perm|);
    // Each letter of the permutation receives one of the free letters.
    forall k | k in done && k in perm ensures done[k] in uv {
      var x :| 0 <= x < |perm| && perm[x] == k;
    }
    forall a, b | a in done && b in done && a != b ensures done[a] != done[b] {
      if a in perm && b in perm {
        var x :| 0 <= x < |perm| && perm[x] == a;
        var y :| 0 <= y < |perm| && perm[y] == b;
        assert uv[x] != uv[y];
      }
    }
  }

  /** One key of the brute force is reported when every keyword occurs in its decryption. */
  predicate SubReported(key: map<char, char>, ctext: string, keywords: seq<string>) {
    Covers(key, ctext) && AllOccur(keywords, SubText(key, ctext))
  }

  /** The body of the loop over permutations (sub.py:71-81): assign, decrypt,
      test the keywords. The new tempKey is returned with Some(decryption)
      for a printed match and None otherwise. */
  method SubTryPermutation(temp: map<char, char>, perm: seq<char>, vals: seq<char>, ctext: string, keywords: seq<string>)
    returns (r: Result<(map<char, char>, Option<string>)>)
    ensures |vals| > |perm| ==> r == Err(IndexError)
    ensures |vals| <= |perm| && !Covers(Assigned(temp, perm, vals, |vals|), ctext) ==> r == Err(KeyError)
    ensures |vals| <= |perm| && Covers(Assigned(temp, perm, vals, |vals|), ctext) ==>
              r.Ok? && r.value.0 == Assigned(temp, perm, vals, |vals|) &&
              (r.value.1.Some? <==> SubReported(r.value.0, ctext, keywords)) &&
              (r.value.1.Some? ==> r.value.1.value == SubText(r.value.0, ctext))
  {
    var tempKey := AssignPermutation(temp, perm, vals);
    if tempKey.Err? {
      return Err(tempKey.error);
    }
    var decryption := DecryptSubCipher(tempKey.value, ctext);
    if decryption.Err? {
      return Err(decryption.error);
    }
    var allin := AllKeywordsIn(keywords, decryption.value);
    if allin {
      return Ok((tempKey.value, Some(decryption.value)));
    }
    return Ok((tempKey.value, None));
  }
}
