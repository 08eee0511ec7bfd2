/** Definitions shared by the three cipher tools: the exceptions the code
    raises, ASCII letter classes, the keyword filter used by every brute
    force, and first-occurrence deduplication of lists. */
module Common {

  /** The Python exceptions raised by the modelled code (messages are not modelled). */
  datatype Error = ValueError | KeyError | IndexError | ZeroDivisionError

  datatype Result<T> = Ok(value: T) | Err(error: Error)

  datatype Option<T> = None | Some(value: T)

  /** The largest ring size for which every code point `chr((x % m) + 97)` the
      tools produce lies below the surrogate block and so is a Dafny `char`. */
  const MaxModulus: int := 0xD800 - 97

  /** The 26 consecutive code points starting at `first`. */
  function LetterRun(first: nat): (s: string)
    requires first + 26 <= 0xD800
    ensures |s| == 26
  {
    seq(26, i requires 0 <= i < 26 => (first + i) as char)
  }

  /** `string.ascii_uppercase`: 'A' .. 'Z' in order. */
  const UpperAlphabet: string := LetterRun(65)

  /** `string.ascii_lowercase`: 'a' .. 'z' in order. */
  const LowerAlphabet: string := LetterRun(97)

  /** The uppercase alphabet holds exactly the 26 uppercase letters, each once, in increasing order. */
  lemma UpperAlphabetMembers()
    ensures forall i :: 0 <= i < 26 ==> UpperAlphabet[i] as int == 65 + i
    ensures forall c :: c in UpperAlphabet <==> IsUpper(c)
  {
    forall c | IsUpper(c) ensures c in UpperAlphabet {
      assert UpperAlphabet[c as int - 65] == c;
    }
  }

  /** The lowercase alphabet holds exactly the 26 lowercase letters, each once, in increasing order. */
  lemma LowerAlphabetMembers()
    ensures forall i :: 0 <= i < 26 ==> LowerAlphabet[i] as int == 97 + i
    ensures forall c :: c in LowerAlphabet <==> IsLower(c)
  {
    forall c | IsLower(c) ensures c in LowerAlphabet {
      assert LowerAlphabet[c as int - 97] == c;
    }
  }

  predicate IsUpper(c: char) { 'A' <= c <= 'Z' }

  predicate IsLower(c: char) { 'a' <= c <= 'z' }

  /** `str.upper()` of a one-character string, restricted to ASCII letters. */
  function Upper(c: char): (u: char)
    ensures IsLower(c) ==> IsUpper(u) && u as int == c as int - 32
    ensures !IsLower(c) ==> u == c
  {
    if IsLower(c) then (c as int - 32) as char else c
  }

  /** `pattern` occurs in `text` starting at position i. */
  predicate OccursAt(pattern: string, text: string, i: int) {
    0 <= i <= |text| - |pattern| && text[i..i + |pattern|] == pattern
  }

  /** Python's `pattern in text` for strings. */
  predicate IsSubstring(pattern: string, text: string) {
    exists i :: 0 <= i <= |text| - |pattern| && OccursAt(pattern, text, i)
  }

  /** Every keyword of the brute-force filter occurs in the decryption. */
  predicate AllOccur(keywords: seq<string>, text: string) {
    forall k :: 0 <= k < |keywords| ==> IsSubstring(keywords[k], text)
  }

  /** The `allin` loop shared by vig.py:384-388, sub.py:75-79 and aff.py:56-60:
      stop at the first keyword that does not occur in the text. */
  method AllKeywordsIn(keywords: seq<string>, text: string) returns (allin: bool)
    ensures allin <==> AllOccur(keywords, text)
    ensures !allin ==> exists k :: 0 <= k < |keywords| && !IsSubstring(keywords[k], text)
  {
    allin := true;
    var i := 0;
    while i < |keywords|
      invariant 0 <= i <= |keywords|
      invariant allin
      invariant forall k :: 0 <= k < i ==> IsSubstring(keywords[k], text)
    {
      if !IsSubstring(keywords[i], text) {
        allin := false;
        break;
      }
      i := i + 1;
    }
  }

  predicate NoDups<T(==)>(s: seq<T>) {
    forall i, j :: 0 <= i < j < |s| ==> s[i] != s[j]
  }

  /** The list built by `if x not in acc: acc.append(x)` over `xs`, in order. */
  function Dedup<T(==)>(xs: seq<T>): (d: seq<T>)
    decreases |xs|
  {
    if xs == [] then []
    else
      var d := Dedup(xs[..|xs| - 1]);
      if xs[|xs| - 1] in d then d else d + [xs[|xs| - 1]]
  }

  /** Deduplication keeps exactly the elements of its input, each once, and never lengthens it. */
  lemma {:induction false} DedupProperties<T>(xs: seq<T>)
    ensures forall x :: x in Dedup(xs) <==> x in xs
    ensures NoDups(Dedup(xs))
    ensures |Dedup(xs)| <= |xs|
    decreases |xs|
  {
    if xs != [] {
      var init := xs[..|xs| - 1];
      DedupProperties(init);
      assert xs == init + [xs[|xs| - 1]];
    }
  }

  /** When two positions of the input hold the same value, deduplication
      strictly shortens the list. */
  lemma {:induction false} DedupShortens<T>(xs: seq<T>, i: nat, j: nat)
    requires i < j < |xs| && xs[i] == xs[j]
    ensures |Dedup(xs)| < |xs|
    decreases |xs|
  {
    var init := xs[..|xs| - 1];
    DedupProperties(init);
    if j == |xs| - 1 {
      assert xs[j] in init by { assert init[i] == xs[i]; }
    } else {
      DedupShortens(init, i, j);
    }
  }

  /** Appending one element to the input appends it to the output unless it is already there. */
  lemma DedupSnoc<T>(xs: seq<T>, x: T)
    ensures Dedup(xs + [x]) == if x in Dedup(xs) then Dedup(xs) else Dedup(xs) + [x]
  {
    assert (xs + [x])[..|xs|] == xs;
  }

  /** A list without duplicates is its own deduplication. */
  lemma {:induction false} DedupOfNoDups<T>(xs: seq<T>)
    requires NoDups(xs)
    ensures Dedup(xs) == xs
    decreases |xs|
  {
    if xs != [] {
      var init := xs[..|xs| - 1];
      assert NoDups(init) by {
        forall i, j | 0 <= i < j < |init| ensures init[i] != init[j] {
          assert init[i] == xs[i] && init[j] == xs[j];
        }
      }
      DedupOfNoDups(init);
      DedupProperties(init);
      assert xs[|xs| - 1] !in init by {
        forall i | 0 <= i < |init| ensures init[i] != xs[|xs| - 1] {
          assert init[i] == xs[i];
        }
      }
      assert xs == init + [xs[|xs| - 1]];
    }
  }

  /** Two duplicate-free lists with no element in common concatenate to a duplicate-free list. */
  lemma NoDupsConcat<T>(a: seq<T>, b: seq<T>)
    requires NoDups(a) && NoDups(b)
    requires forall x :: x in a ==> x !in b
    ensures NoDups(a + b)
  {
    forall i, j | 0 <= i < j < |a + b| ensures (a + b)[i] != (a + b)[j] {
      if j < |a| {
        assert (a + b)[i] == a[i] && (a + b)[j] == a[j];
      } else if i >= |a| {
        assert (a + b)[i] == b[i - |a|] && (a + b)[j] == b[j - |a|];
      } else {
        assert (a + b)[i] == a[i] && (a + b)[j] == b[j - |a|];
        assert a[i] in a && b[j - |a|] in b;
      }
    }
  }
}
