/** Splitting a Vigenère ciphertext into n interleaved substrings for period
    analysis (divideIntoSubstrings, vig.py:122-169). In stream mode each
    block of n characters is shifted back by its block number first. */
module Segment {
  import opened Common
  import Arith

  /** `chr((((ord(c) - 65) - offset) % m) + 65)` (vig.py:161-165). */
  function Deshift(c: char, offset: int, m: int): char
    requires 1 <= m <= MaxModulus
  {
    (Arith.FloorMod((c as int - 65) - offset, m) + 65) as char
  }

  /** The offset in force for block number `block`: the block number mod m in stream mode, 0 in classic mode. */
  function Offset(block: int, isStream: bool, m: int): int
    requires m >= 1
  {
    if isStream then Arith.FloorMod(block, m) else 0
  }

  /** The offset grows by one, mod m, from block to block in stream mode. */
  lemma OffsetStep(block: nat, isStream: bool, m: int)
    requires m >= 1
    ensures Offset(block + 1, isStream, m) == if isStream then (Offset(block, isStream, m) + 1) % m else 0
  {
    Arith.FloorModIsMod(block, m);
    Arith.FloorModIsMod(block + 1, m);
    Arith.ModAddMod(block, 1, m);
  }

  /** How many of the positions 0 .. len-1 are congruent to t modulo n. */
  function ColumnLength(len: nat, n: nat, t: nat): nat
    requires n >= 1
  {
    Arith.FloorDiv(len, n) + (if t < Arith.FloorMod(len, n) then 1 else 0)
  }

  /** The position where block x starts, x*n, written as a sum so that the
      statements below stay linear. */
  function BlockStart(x: nat, n: nat): nat
    decreases x
  {
    if x == 0 then 0 else BlockStart(x - 1, n) + n
  }

  lemma {:induction false} BlockStartIsProduct(x: nat, n: nat)
    ensures BlockStart(x, n) == x * n
    decreases x
  {
    if x > 0 {
      BlockStartIsProduct(x - 1, n);
      assert (x - 1) * n + n == x * n;
    }
  }

  /** Where a position p = q*n + r (0 <= r < n) stands relative to the
      position block*n + k of a block: an earlier block, or the same one before r. */
  lemma BlockBefore(p: int, n: int, q: int, r: int, block: int, k: int)
    requires 0 <= r < n && 0 <= k < n && 0 <= q && 0 <= block
    requires p == q * n + r && block * n + k < p
    ensures block < q || (block == q && k < r)
  {
    if block > q {
      Arith.BelowProduct(q, block, n, r);
      assert false;
    }
  }

  /** Dealing position block*n + k lands in column k, below that column's length. */
  lemma InColumn(len: nat, n: nat, k: nat, block: nat)
    requires n >= 1 && k < n && BlockStart(block, n) + k < len
    ensures block < ColumnLength(len, n, k)
  {
    var q, r := len / n, len % n;
    assert ColumnLength(len, n, k) == q + (if k < r then 1 else 0) by {
      Arith.FloorDivIsDiv(len, n);
    }
    assert block * n + k < len by {
      BlockStartIsProduct(block, n);
    }
    assert block < q || (block == q && k < r) by {
      Arith.DivModParts(len, n);
      BlockBefore(len, n, q, r, block, k);
    }
  }

  /** Entry x of column t is position t + x*n of the text, and it exists. */
  lemma ColumnBound(len: nat, n: nat, t: nat, x: nat)
    requires n >= 1 && t < n && x < ColumnLength(len, n, t)
    ensures t + BlockStart(x, n) < len
  {
    var q, r := len / n, len % n;
    assert ColumnLength(len, n, t) == q + (if t < r then 1 else 0) by {
      Arith.FloorDivIsDiv(len, n);
    }
    assert t + x * n < len by {
      Arith.DivModParts(len, n);
      PositionBelow(len, n, q, r, t, x);
    }
    BlockStartIsProduct(x, n);
  }

  /** The converse of BlockBefore: a position in an earlier block, or in the
      same block before r, lies below p = q*n + r. */
  lemma PositionBelow(p: int, n: int, q: int, r: int, t: int, x: int)
    requires 0 <= r < n && 0 <= t < n && 0 <= x
    requires p == q * n + r && (x < q || (x == q && t < r))
    ensures t + x * n < p
  {
    if x < q {
      Arith.BelowProduct(x, q, n, t);
    }
  }

  /** Position j is entry j div n of column j mod n. */
  lemma DivModPosition(j: nat, n: nat)
    requires n >= 1
    ensures j % n + BlockStart(j / n, n) == j
  {
    BlockStartIsProduct(j / n, n);
  }

  /** The first c entries of column t exist in a text of length len: the
      last of them, at t + (c-1)n, lies below len. */
  predicate PrefixFits(len: nat, n: nat, t: nat, c: nat) {
    t + BlockStart(c, n) < len + n
  }

  /** The first c entries of column t: the characters at t, t + n, ...,
      t + (c-1)n, the x-th of them lowered by the offset of block x. */
  function ColumnPrefix(ctext: string, n: nat, isStream: bool, m: int, t: nat, c: nat): (col: string)
    requires n >= 1 && 1 <= m <= MaxModulus && PrefixFits(|ctext|, n, t, c)
    ensures |col| == c
    decreases c
  {
    if c == 0 then []
    else ColumnPrefix(ctext, n, isStream, m, t, c - 1) +
         [Deshift(ctext[t + BlockStart(c - 1, n)], Offset(c - 1, isStream, m), m)]
  }

  /** Entry x of a column prefix is the character at t + x*n, lowered by the offset of block x. */
  lemma {:induction false} ColumnPrefixAt(ctext: string, n: nat, isStream: bool, m: int, t: nat, c: nat, x: nat)
    requires n >= 1 && 1 <= m <= MaxModulus && PrefixFits(|ctext|, n, t, c) && x < c
    ensures t + BlockStart(x, n) < |ctext|
    ensures ColumnPrefix(ctext, n, isStream, m, t, c)[x] ==
              Deshift(ctext[t + BlockStart(x, n)], Offset(x, isStream, m), m)
    decreases c
  {
    if x < c - 1 {
      ColumnPrefixAt(ctext, n, isStream, m, t, c - 1, x);
    }
  }

  /** The whole of column t: the prefix of length ColumnLength. */
  function Column(ctext: string, n: nat, isStream: bool, m: int, t: nat): (col: string)
    requires n >= 1 && 1 <= m <= MaxModulus && t < n
    ensures |col| == ColumnLength(|ctext|, n, t)
  {
    var c := ColumnLength(|ctext|, n, t);
    if c == 0 then []
    else
      ColumnBound(|ctext|, n, t, c - 1);
      assert BlockStart(c, n) == BlockStart(c - 1, n) + n;
      ColumnPrefix(ctext, n, isStream, m, t, c)
  }

  /** Column t holds, in order, the characters at the positions t, t + n,
      t + 2n, ..., the x-th of them lowered by the offset of block x. */
  function Columns(ctext: string, n: nat, isStream: bool, m: int): (cols: seq<string>)
    requires n >= 1 && 1 <= m <= MaxModulus
    ensures |cols| == n
  {
    seq(n, t requires 0 <= t < n => Column(ctext, n, isStream, m, t))
  }

  /** Entry x of column t is the character at t + x*n, lowered by the offset of block x. */
  lemma ColumnAt(ctext: string, n: nat, isStream: bool, m: int, t: nat, x: nat)
    requires n >= 1 && 1 <= m <= MaxModulus && t < n && x < ColumnLength(|ctext|, n, t)
    ensures t + BlockStart(x, n) < |ctext|
    ensures Columns(ctext, n, isStream, m)[t][x] ==
              Deshift(ctext[t + BlockStart(x, n)], Offset(x, isStream, m), m)
  {
    var c := ColumnLength(|ctext|, n, t);
    ColumnBound(|ctext|, n, t, c - 1);
    ColumnPrefixAt(ctext, n, isStream, m, t, c, x);
  }

  /** Substrings lo .. hi-1 hold the first c entries of their columns. */
  ghost predicate DealtRange(substrings: seq<string>, ctext: string, n: nat, isStream: bool, m: int, c: nat, lo: nat, hi: nat)
    requires n >= 1 && 1 <= m <= MaxModulus && hi <= |substrings|
  {
    forall t :: lo <= t < hi ==>
      PrefixFits(|ctext|, n, t, c) && substrings[t] == ColumnPrefix(ctext, n, isStream, m, t, c)
  }

  /** The state of the dealing loop after block*n + k characters: substrings
      before k hold the first block + 1 entries of their column, the others
      the first block entries. */
  ghost predicate Dealt(substrings: seq<string>, ctext: string, n: nat, isStream: bool, m: int, block: nat, k: nat)
    requires n >= 1 && 1 <= m <= MaxModulus
  {
    |substrings| == n && k <= n &&
    DealtRange(substrings, ctext, n, isStream, m, block + 1, 0, k) &&
    DealtRange(substrings, ctext, n, isStream, m, block, k, n)
  }

  /** Updating a substring outside lo .. hi-1 keeps that range dealt. */
  lemma DealtRangeUpdate(substrings: seq<string>, ctext: string, n: nat, isStream: bool, m: int, c: nat, lo: nat, hi: nat, k: nat, s: string)
    requires n >= 1 && 1 <= m <= MaxModulus && hi <= |substrings| && k < |substrings| && (k < lo || hi <= k)
    requires DealtRange(substrings, ctext, n, isStream, m, c, lo, hi)
    ensures DealtRange(substrings[k := s], ctext, n, isStream, m, c, lo, hi)
  {
    forall t | lo <= t < hi
      ensures substrings[k := s][t] == substrings[t]
    {
    }
  }

  /** A dealt range grows by the substring just above it when that one is dealt too. */
  lemma DealtRangeGrow(substrings: seq<string>, ctext: string, n: nat, isStream: bool, m: int, c: nat, lo: nat, hi: nat)
    requires n >= 1 && 1 <= m <= MaxModulus && hi < |substrings|
    requires DealtRange(substrings, ctext, n, isStream, m, c, lo, hi)
    requires PrefixFits(|ctext|, n, hi, c) && substrings[hi] == ColumnPrefix(ctext, n, isStream, m, hi, c)
    ensures DealtRange(substrings, ctext, n, isStream, m, c, lo, hi + 1)
  {
  }

  /** The column prefix of length block + 1 of column k is that of length block and the next character. */
  lemma ColumnPrefixStep(ctext: string, n: nat, isStream: bool, m: int, block: nat, k: nat)
    requires n >= 1 && 1 <= m <= MaxModulus && BlockStart(block, n) + k < |ctext|
    ensures PrefixFits(|ctext|, n, k, block + 1) && PrefixFits(|ctext|, n, k, block)
    ensures ColumnPrefix(ctext, n, isStream, m, k, block + 1) ==
              ColumnPrefix(ctext, n, isStream, m, k, block) + [Deshift(ctext[BlockStart(block, n) + k], Offset(block, isStream, m), m)]
  {
  }

  /** Appending the next character to substring k extends the dealt prefix by one position. */
  lemma DealStep(substrings: seq<string>, ctext: string, n: nat, isStream: bool, m: int, block: nat, k: nat, ch: char)
    requires n >= 1 && 1 <= m <= MaxModulus && k < n && BlockStart(block, n) + k < |ctext|
    requires Dealt(substrings, ctext, n, isStream, m, block, k)
    requires ch == Deshift(ctext[BlockStart(block, n) + k], Offset(block, isStream, m), m)
    ensures Dealt(substrings[k := substrings[k] + [ch]], ctext, n, isStream, m, block, k + 1)
  {
    var next := substrings[k := substrings[k] + [ch]];
    assert DealtRange(next, ctext, n, isStream, m, block + 1, 0, k + 1) by {
      ColumnPrefixStep(ctext, n, isStream, m, block, k);
      DealtRangeUpdate(substrings, ctext, n, isStream, m, block + 1, 0, k, k, substrings[k] + [ch]);
      DealtRangeGrow(next, ctext, n, isStream, m, block + 1, 0, k);
    }
    assert DealtRange(next, ctext, n, isStream, m, block, k + 1, n) by {
      DealtRangeUpdate(substrings, ctext, n, isStream, m, block, k + 1, n, k, substrings[k] + [ch]);
    }
  }

  /** Once every character is dealt, the substrings are the columns. */
  lemma DealtComplete(substrings: seq<string>, ctext: string, n: nat, isStream: bool, m: int, block: nat, k: nat)
    requires n >= 1 && 1 <= m <= MaxModulus && k < n && BlockStart(block, n) + k == |ctext|
    requires Dealt(substrings, ctext, n, isStream, m, block, k)
    ensures substrings == Columns(ctext, n, isStream, m)
  {
    var cols := Columns(ctext, n, isStream, m);
    BlockStartIsProduct(block, n);
    Arith.DivModUnique(|ctext|, n, block, k);
    Arith.FloorDivIsDiv(|ctext|, n);
    forall t | 0 <= t < n ensures substrings[t] == cols[t] {
      if t < k {
        assert ColumnLength(|ctext|, n, t) == block + 1;
      } else {
        assert ColumnLength(|ctext|, n, t) == block;
      }
    }
  }

  /** Deal the characters round robin into n strings; ValueError for n < 1,
      m < 1, or a ciphertext shorter than n (vig.py:145-169). */
  method DivideIntoSubstrings(ctext: string, n: int, isStream: bool, m: int) returns (r: Result<seq<string>>)
    requires m <= MaxModulus
    ensures n < 1 || m < 1 ==> r == Err(ValueError)
    ensures n >= 1 && m >= 1 && |ctext| < n ==> r == Err(ValueError)
    ensures n >= 1 && m >= 1 && |ctext| >= n ==> r == Ok(Columns(ctext, n, isStream, m))
  {
    if n < 1 || m < 1 {
      return Err(ValueError);
    }
    if |ctext| < n {
      return Err(ValueError);
    }
    var substrings := DealColumns(ctext, n, isStream, m);
    return Ok(substrings);
  }

  /** The dealing loop of divideIntoSubstrings once the arguments are checked. */
  method DealColumns(ctext: string, n: int, isStream: bool, m: int) returns (substrings: seq<string>)
    requires n >= 1 && 1 <= m <= MaxModulus && |ctext| >= n
    ensures substrings == Columns(ctext, n, isStream, m)
  {
    substrings := seq(n, i => "");
    var k := 0;
    var offset := 0;
    ghost var block: nat := 0;
    var i := 0;
    while i < |ctext|
      invariant 0 <= i <= |ctext|
      invariant 0 <= k < n && i == BlockStart(block, n) + k
      invariant offset == Offset(block, isStream, m)
      invariant Dealt(substrings, ctext, n, isStream, m, block, k)
    {
      var ch := ((((ctext[i] as int - 65) - offset) % m) + 65) as char;
      assert ch == Deshift(ctext[i], offset, m) by {
        Arith.FloorModIsMod((ctext[i] as int - 65) - offset, m);
      }
      DealStep(substrings, ctext, n, isStream, m, block, k, ch);
      substrings := substrings[k := substrings[k] + [ch]];
      Arith.StepWrap(k, n);
      k := (k + 1) % n;
      if k == 0 {
        OffsetStep(block, isStream, m);
        block := block + 1;
      }
      if isStream && k == 0 {
        offset := (offset + 1) % m;
      }
      i := i + 1;
    }
    DealtComplete(substrings, ctext, n, isStream, m, block, k);
  }

  /** Total length of a list of strings. */
  function TotalLength(ss: seq<string>): nat
    decreases |ss|
  {
    if ss == [] then 0 else TotalLength(ss[..|ss| - 1]) + |ss[|ss| - 1]|
  }

  /** The first k columns hold k*(len div n) characters plus one for each of them below len mod n. */
  lemma {:induction false} ColumnLengthPrefix(ctext: string, n: nat, isStream: bool, m: int, k: nat)
    requires n >= 1 && 1 <= m <= MaxModulus && k <= n
    ensures TotalLength(Columns(ctext, n, isStream, m)[..k]) ==
              BlockStart(k, Arith.FloorDiv(|ctext|, n)) + (if k < Arith.FloorMod(|ctext|, n) then k else Arith.FloorMod(|ctext|, n))
    decreases k
  {
    var cols := Columns(ctext, n, isStream, m);
    if k > 0 {
      ColumnLengthPrefix(ctext, n, isStream, m, k - 1);
      assert cols[..k][..k - 1] == cols[..k - 1];
    }
  }

  /** n columns of len div n entries each, plus one for the first len mod n of them, account for len positions. */
  lemma ColumnCountsAddUp(len: nat, n: nat)
    requires n >= 1
    ensures BlockStart(n, Arith.FloorDiv(len, n)) + Arith.FloorMod(len, n) == len
  {
    Arith.FloorDivIsDiv(len, n);
    BlockStartIsProduct(n, len / n);
    assert len == (len / n) * n + len % n;
  }

  /** The substrings together hold exactly as many characters as the ciphertext. */
  lemma ColumnsTotalLength(ctext: string, n: nat, isStream: bool, m: int)
    requires n >= 1 && 1 <= m <= MaxModulus
    ensures TotalLength(Columns(ctext, n, isStream, m)) == |ctext|
  {
    var cols := Columns(ctext, n, isStream, m);
    ColumnLengthPrefix(ctext, n, isStream, m, n);
    assert cols[..n] == cols;
    ColumnCountsAddUp(|ctext|, n);
  }

  /** Every ciphertext position j lands in substring j mod n at index j div n,
      lowered by the offset of its block. */
  lemma ColumnsPosition(ctext: string, n: nat, isStream: bool, m: int, j: nat)
    requires n >= 1 && 1 <= m <= MaxModulus && j < |ctext|
    ensures j / n < |Columns(ctext, n, isStream, m)[j % n]|
    ensures Columns(ctext, n, isStream, m)[j % n][j / n] == Deshift(ctext[j], Offset(j / n, isStream, m), m)
  {
    var a, b := j / n, j % n;
    DivModPosition(j, n);
    InColumn(|ctext|, n, b, a);
    ColumnAt(ctext, n, isStream, m, b, a);
  }

  /** In classic mode with m = 26, an uppercase ciphertext is simply dealt out: no character changes. */
  lemma ClassicInterleave(ctext: string, n: nat, t: nat, x: nat)
    requires n >= 1 && t < n
    requires forall j :: 0 <= j < |ctext| ==> IsUpper(ctext[j])
    requires x < |Columns(ctext, n, false, 26)[t]|
    ensures t + BlockStart(x, n) < |ctext| && Columns(ctext, n, false, 26)[t][x] == ctext[t + BlockStart(x, n)]
  {
    ColumnAt(ctext, n, false, 26, t, x);
    Arith.ModSmall(ctext[t + BlockStart(x, n)] as int - 65, 26);
  }

  /** The three-way split of a nine-letter text in classic mode: column t
      holds letters t, t + 3 and t + 6. */
  lemma NineLettersInThree(s: string)
    requires |s| == 9 && forall j :: 0 <= j < |s| ==> IsUpper(s[j])
    ensures Columns(s, 3, false, 26) == [[s[0], s[3], s[6]], [s[1], s[4], s[7]], [s[2], s[5], s[8]]]
  {
    var cols := Columns(s, 3, false, 26);
    ColumnOfNine(s, 0);
    ColumnOfNine(s, 1);
    ColumnOfNine(s, 2);
    assert cols == [cols[0], cols[1], cols[2]];
  }

  /** "ABCDEFGHI" dealt into three is ADG, BEH, CFI. */
  lemma NineLettersExample()
    ensures Columns("ABCDEFGHI", 3, false, 26) == ["ADG", "BEH", "CFI"]
  {
    NineLettersInThree("ABCDEFGHI");
  }

  /** Column t of a nine-letter text dealt into 3. */
  lemma ColumnOfNine(s: string, t: nat)
    requires |s| == 9 && forall j :: 0 <= j < |s| ==> IsUpper(s[j])
    requires t < 3
    ensures Columns(s, 3, false, 26)[t] == [s[t], s[t + 3], s[t + 6]]
  {
    var col := Columns(s, 3, false, 26)[t];
    assert |col| == 3 by {
      Arith.FloorDivIsDiv(9, 3);
    }
    assert BlockStart(1, 3) == 3 && BlockStart(2, 3) == 6;
    assert col[0] == s[t] by {
      ClassicInterleave(s, 3, t, 0);
    }
    assert col[1] == s[t + 3] by {
      ClassicInterleave(s, 3, t, 1);
    }
    assert col[2] == s[t + 6] by {
      ClassicInterleave(s, 3, t, 2);
    }
  }
}
