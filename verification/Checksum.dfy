/**
  The Internet checksum as udp.c, tcp.c and ipv4.c compute it (RFC 1071): 16-bit
  big-endian words summed in 32 bits and folded, against arithmetic modulo 65535.
 */
module Checksum {
  import opened Basics

  const ONES := 0xFFFF

  /** The word at i; a last odd byte counts as a high byte. */
  function Word(d: Bytes, i: nat): (w: nat)
    requires i < |d|
    ensures w <= ONES
  {
    256 * d[i] as int + if i + 1 < |d| then d[i + 1] as int else 0
  }

  /** Sum of the words from i on, without any carry. */
  function WordsFrom(d: Bytes, i: nat): nat
    decreases |d| - i
  {
    if i >= |d| then 0 else Word(d, i) + WordsFrom(d, i + 2)
  }

  function Words(d: Bytes): nat {
    WordsFrom(d, 0)
  }

  /** What is summed: two bytes are one big-endian word, a last single byte the high half of one. */
  lemma {:induction false} WordsAre(hi: byte, lo: byte, rest: Bytes)
    ensures Words([hi, lo] + rest) == 256 * hi + lo + Words(rest)
    ensures Words([hi]) == 256 * hi && Words([]) == 0
  {
    var d := [hi, lo] + rest;
    assert Word(d, 0) == 256 * hi + lo;
    WordsLater(d, rest, 0);
    assert WordsFrom([hi], 2) == 0;
  }

  lemma {:induction false} WordsLater(d: Bytes, rest: Bytes, i: nat)
    requires |d| == |rest| + 2 && d[2..] == rest
    ensures WordsFrom(d, i + 2) == WordsFrom(rest, i)
    decreases |rest| - i
  {
    if i < |rest| {
      assert d[i + 2] == d[2..][i];
      assert i + 1 < |rest| ==> d[i + 3] == d[2..][i + 1];
      WordsLater(d, rest, i + 2);
    }
  }

  /** Adds the carries back until none is left. */
  function Fold(s: nat): nat
    decreases s
  {
    if s <= ONES then s else Fold(s % 0x1_0000 + s / 0x1_0000)
  }

  // ----------------------------------------------------------------
  // Folding is reduction modulo 65535
  // ----------------------------------------------------------------

  /** The representative of s modulo 65535 in 1..65535; zero only for zero. */
  function Residue(s: nat): nat {
    if s == 0 then 0 else if s % ONES == 0 then ONES else s % ONES
  }

  lemma ModShift(a: nat, q: nat)
    ensures (a + ONES * q) % ONES == a % ONES
  {
  }

  lemma {:induction false} FoldIsResidue(s: nat)
    ensures Fold(s) == Residue(s)
    decreases s
  {
    if s > ONES {
      var q, r := s / 0x1_0000, s % 0x1_0000;
      ModShift(q + r, q);
      FoldIsResidue(r + q);
    }
  }

  /** A sum folds to all ones exactly when it is a positive multiple of 65535. */
  lemma AllOnesIff(s: nat)
    ensures Fold(s) == ONES <==> s > 0 && s % 65535 == 0
  {
    FoldIsResidue(s);
  }

  /** Partial folding does not matter. */
  lemma FoldAbsorbs(a: nat, b: nat)
    ensures Fold(Fold(a) + b) == Fold(a + b)
  {
    FoldIsResidue(a);
    FoldIsResidue(Fold(a) + b);
    FoldIsResidue(a + b);
    ModSum(a, b);
    ModSum(Residue(a), b);
  }

  lemma ModSum(a: nat, b: nat)
    ensures (a + b) % ONES == (a % ONES + b) % ONES
  {
  }

  /** A sum completed with the complement of its fold folds to all ones, and so do its two neighbours modulo 65535. */
  lemma ComplementCompletes(s: nat, field: nat)
    requires field == ONES - Fold(s) || (Fold(s) == ONES && field == ONES)
    ensures Fold(s + field) == ONES
  {
    FoldIsResidue(s);
    FoldIsResidue(s + field);
    ModSum(s, field);
  }

  /** When two sums fold to the same value. */
  lemma FoldEqualIff(a: nat, b: nat)
    ensures Fold(a) == Fold(b) <==> (a == 0 <==> b == 0) && a % ONES == b % ONES
  {
    FoldIsResidue(a);
    FoldIsResidue(b);
  }

  // ----------------------------------------------------------------
  // Changing one word
  // ----------------------------------------------------------------

  /** The two differ at most in the word at k. */
  ghost predicate SameButWord(s: Bytes, t: Bytes, k: nat) {
    && |s| == |t| && k < |s| && k % 2 == 0
    && forall i :: 0 <= i < |s| && i != k && i != k + 1 ==> t[i] == s[i]
  }

  lemma {:induction false} WordChange(s: Bytes, t: Bytes, k: nat, i: nat)
    requires SameButWord(s, t, k) && i % 2 == 0
    ensures WordsFrom(t, i) - WordsFrom(s, i) == if i <= k then Word(t, k) - Word(s, k) else 0
    decreases |s| - i
  {
    if i < |s| {
      WordChange(s, t, k, i + 2);
    }
  }

  /**
    A message that checks (with `other` the sum of its pseudo header) still checks after its
    word at k has changed exactly when that word is the same modulo 65535.
   */
  lemma ChangedWordIff(s: Bytes, t: Bytes, k: nat, other: nat)
    requires SameButWord(s, t, k) && Fold(other + Words(s)) == ONES && other > 0
    ensures Fold(other + Words(t)) == ONES <==> Word(t, k) % ONES == Word(s, k) % ONES
  {
    WordChange(s, t, k, 0);
    var rest := other + Words(s) - Word(s, k);
    FoldEqualIff(other + Words(t), other + Words(s));
    SameSumIff(Word(t, k), Word(s, k), rest);
  }

  lemma SameSumIff(a: nat, b: nat, rest: nat)
    ensures (a + rest) % ONES == (b + rest) % ONES <==> a % ONES == b % ONES
  {
    ModSum(a, rest);
    ModSum(b, rest);
    if (a + rest) % ONES == (b + rest) % ONES {
      ModCancel(a % ONES, b % ONES, rest);
    }
  }

  lemma ModCancel(a: nat, b: nat, c: nat)
    requires a < ONES && b < ONES && (a + c) % ONES == (b + c) % ONES
    ensures a == b
  {
  }

  /** One wrong byte never leaves its word the same modulo 65535. */
  lemma WrongByteDetected(s: Bytes, t: Bytes, k: nat, other: nat)
    requires |s| == |t| && k < |s| && t[k] != s[k] && forall i :: 0 <= i < |s| && i != k ==> t[i] == s[i]
    requires Fold(other + Words(s)) == ONES && other > 0
    ensures Fold(other + Words(t)) != ONES
  {
    var w := k / 2 * 2;
    assert SameButWord(s, t, w);
    ChangedWordIff(s, t, w, other);
    WrongByteChangesWord(s, t, k, w);
  }

  lemma WrongByteChangesWord(s: Bytes, t: Bytes, k: nat, w: nat)
    requires |s| == |t| && k < |s| && (k == w || k == w + 1) && t[k] != s[k]
    requires forall i :: 0 <= i < |s| && i != k ==> t[i] == s[i]
    ensures Word(t, w) % ONES != Word(s, w) % ONES
  {
    var a, b := Word(t, w), Word(s, w);
    assert a != b && a - b < ONES && b - a < ONES;
    CloseDiffer(a, b);
  }

  lemma CloseDiffer(a: nat, b: nat)
    requires a != b && a - b < ONES && b - a < ONES
    ensures a % ONES != b % ONES
  {
    assert a == 65535 * (a / 65535) + a % 65535;
    assert b == 65535 * (b / 65535) + b % 65535;
  }

  // ----------------------------------------------------------------
  // The loops
  // ----------------------------------------------------------------

  /** while ((sum >> 16) != 0) sum = (sum & 0xFFFF) + (sum >> 16) */
  method FoldCarries(s: nat) returns (sum: nat)
    ensures sum == Fold(s) && sum <= ONES
  {
    sum := s;
    while sum / 0x1_0000 != 0
      invariant Fold(sum) == Fold(s)
      decreases sum
    {
      sum := sum % 0x1_0000 + sum / 0x1_0000;
    }
  }

  /** Addition of two u32. */
  function Add32(a: nat, b: nat): (s: nat)
    ensures a + b < TWO32 ==> s == a + b
  {
    (a + b) % TWO32
  }

  lemma {:induction false} WordsBound(d: Bytes, i: nat)
    requires i <= |d| + 1
    ensures WordsFrom(d, i) <= (|d| - i + 1) / 2 * ONES
    decreases |d| - i
  {
    if i < |d| {
      WordsBound(d, i + 2);
      OneWordMore(|d| - i);
    }
  }

  lemma OneWordMore(n: nat)
    requires n > 0
    ensures (n + 1) / 2 * ONES == (n - 2 + 1) / 2 * ONES + ONES
  {
    assert (n + 1) / 2 == (n - 1) / 2 + 1;
  }

  /** checksum_add of udp.c and tcp.c. Up to 131072 bytes the 32-bit sum cannot overflow. */
  method ChecksumAdd(data: Bytes, start: nat) returns (sum: nat)
    requires start <= ONES && |data| <= 0x2_0000
    ensures sum == Fold(start + Words(data)) && sum <= ONES
  {
    WordsBound(data, 0);
    sum := start;
    var i := 0;
    while i + 1 < |data|
      invariant 0 <= i <= |data|
      invariant sum + WordsFrom(data, i) == start + Words(data) < TWO32
    {
      sum := Add32(sum, 256 * data[i] as int + data[i + 1] as int);
      i := i + 2;
    }
    if i < |data| {
      sum := Add32(sum, 256 * data[i] as int);
    }
    sum := FoldCarries(sum);
  }

  /** One word more than that can overflow. */
  lemma OverflowBound(data: Bytes)
    requires |data| == 0x2_0002 && forall i :: 0 <= i < |data| ==> data[i] == 255
    ensures ONES + Words(data) >= TWO32
  {
    AllOnes(data, 0);
  }

  lemma {:induction false} AllOnes(data: Bytes, i: nat)
    requires i <= |data| && (|data| - i) % 2 == 0 && forall j :: 0 <= j < |data| ==> data[j] == 255
    ensures WordsFrom(data, i) == (|data| - i) / 2 * ONES
    decreases |data| - i
  {
    if i < |data| {
      AllOnes(data, i + 2);
    }
  }

  /** Folding after one word does not change what the rest folds to. */
  lemma FoldWord(data: Bytes, i: nat, sum: nat)
    requires i < |data|
    ensures Fold(Fold(sum + Word(data, i)) + WordsFrom(data, i + 2)) == Fold(sum + WordsFrom(data, i))
  {
    FoldAbsorbs(sum + Word(data, i), WordsFrom(data, i + 2));
  }

  lemma FoldLast(data: Bytes, i: nat, sum: nat)
    requires i <= |data| <= i + 1 && sum <= ONES
    ensures Fold(sum + WordsFrom(data, i)) == if i < |data| then Fold(sum + 256 * data[i] as int) else sum
  {
    assert WordsFrom(data, i + 2) == 0;
  }

  /** The loop of ipv4_checksum, which folds after every word. */
  method FoldWords(data: Bytes) returns (sum: nat, i: nat)
    ensures i == |data| / 2 * 2 && sum <= ONES
    ensures Fold(sum + WordsFrom(data, i)) == Fold(Words(data))
  {
    ghost var total := Fold(Words(data));
    sum, i := 0, 0;
    while i + 1 < |data|
      invariant 0 <= i <= |data| && i % 2 == 0 && sum <= ONES
      invariant Fold(sum + WordsFrom(data, i)) == total
    {
      sum := FoldNext(data, i, sum);
      i := i + 2;
    }
  }

  method FoldNext(data: Bytes, i: nat, sum: nat) returns (r: nat)
    requires i + 1 < |data|
    ensures r <= ONES && Fold(r + WordsFrom(data, i + 2)) == Fold(sum + WordsFrom(data, i))
  {
    FoldWord(data, i, sum);
    r := FoldCarries(sum + (256 * data[i] as int + data[i + 1] as int));
  }

  /** ipv4_checksum */
  method Ipv4Checksum(data: Bytes) returns (checksum: nat)
    ensures checksum == ONES - Fold(Words(data))
  {
    var sum, i := FoldWords(data);
    FoldLast(data, i, sum);
    if |data| % 2 == 1 {
      sum := FoldCarries(sum + 256 * data[|data| - 1] as int);
    }
    checksum := ONES - sum;
  }
}
