/**
  The RLE8 codec of driver packs: the packer's encoder (tools/driverpack.py, rle8) and
  the kernel's decoder (source/driver/driver_store.c, rle8_decode).
 */
module Rle8 {
  import opened Basics

  // ----------------------------------------------------------------
  // Encoder
  // ----------------------------------------------------------------

  const MAX_RUN := 130
  const MAX_LITERAL := 128

  /** How far the run of equal bytes at i extends, given that run bytes are known to be equal. */
  function RunFrom(x: Bytes, i: nat, run: nat): (r: nat)
    requires 1 <= run <= MAX_RUN && i + run <= |x|
    ensures run <= r <= MAX_RUN && i + r <= |x|
    decreases MAX_RUN - run
  {
    if i + run < |x| && x[i + run] == x[i] && run < MAX_RUN then RunFrom(x, i, run + 1) else run
  }

  function RunAt(x: Bytes, i: nat): nat
    requires i < |x|
  {
    RunFrom(x, i, 1)
  }

  /** Where the literal that started at start ends, given that it reaches i. */
  function LiteralEnd(x: Bytes, start: nat, i: nat): (e: nat)
    requires start < i <= |x| && i - start <= MAX_LITERAL + 1
    ensures i <= e <= |x| && e - start <= MAX_LITERAL + 1
    decreases |x| - i
  {
    if i < |x| && i - start < MAX_LITERAL && RunAt(x, i) < 3 then LiteralEnd(x, start, i + RunAt(x, i)) else i
  }

  /** A literal chunk at i, when the run there is too short. */
  function ChunkEnd(x: Bytes, i: nat): (e: nat)
    requires i < |x|
    ensures i < e <= |x|
    ensures RunAt(x, i) < 3 ==> e - i <= MAX_LITERAL + 1
  {
    if RunAt(x, i) >= 3 then i + RunAt(x, i) else LiteralEnd(x, i, i + RunAt(x, i))
  }

  function RunChunk(v: byte, run: nat): (c: Bytes)
    requires 3 <= run <= MAX_RUN
    ensures |c| == 2
  {
    [128 + run - 3, v]
  }

  function LiteralChunk(x: Bytes, i: nat, e: nat): (c: Bytes)
    requires i < e <= |x| && e - i <= MAX_LITERAL + 1
    ensures |c| == e - i + 1
  {
    [e - i - 1] + x[i..e]
  }

  function Chunk(x: Bytes, i: nat): (c: Bytes)
    requires i < |x|
    ensures |c| == if RunAt(x, i) >= 3 then 2 else ChunkEnd(x, i) - i + 1
  {
    if RunAt(x, i) >= 3 then RunChunk(x[i], RunAt(x, i)) else LiteralChunk(x, i, ChunkEnd(x, i))
  }

  /** rle8 of the bytes from i on. */
  function Encode(x: Bytes, i: nat): Bytes
    requires i <= |x|
    decreases |x| - i
  {
    if i == |x| then [] else Chunk(x, i) + Encode(x, ChunkEnd(x, i))
  }

  method MeasureRun(x: Bytes, i: nat) returns (run: nat)
    requires i < |x|
    ensures run == RunAt(x, i)
  {
    run := 1;
    while i + run < |x| && x[i + run] == x[i] && run < MAX_RUN
      invariant 1 <= run <= MAX_RUN && i + run <= |x|
      invariant RunFrom(x, i, run) == RunAt(x, i)
    {
      run := run + 1;
    }
  }

  method MeasureLiteral(x: Bytes, start: nat, first: nat) returns (i: nat)
    requires start < first <= |x| && first - start <= 2
    ensures i == LiteralEnd(x, start, first)
  {
    i := first;
    while i < |x| && i - start < MAX_LITERAL
      invariant first <= i <= |x| && i - start <= MAX_LITERAL + 1
      invariant LiteralEnd(x, start, i) == LiteralEnd(x, start, first)
      decreases |x| - i
    {
      var run := MeasureRun(x, i);
      if run >= 3 {
        return;
      }
      i := i + run;
    }
  }

  lemma ChunkIs(x: Bytes, i: nat, run: nat)
    requires i < |x| && run == RunAt(x, i)
    ensures run >= 3 ==> Chunk(x, i) == RunChunk(x[i], run) && ChunkEnd(x, i) == i + run
    ensures run < 3 ==> ChunkEnd(x, i) == LiteralEnd(x, i, i + run) && Chunk(x, i) == LiteralChunk(x, i, ChunkEnd(x, i))
  {
  }

  /** One turn of the outer loop: the chunk at i, and where the next one starts. */
  method EmitChunk(x: Bytes, i: nat) returns (chunk: Bytes, next: nat)
    requires i < |x|
    ensures chunk == Chunk(x, i) && next == ChunkEnd(x, i)
  {
    var run := MeasureRun(x, i);
    ChunkIs(x, i, run);
    if run >= 3 {
      return RunChunk(x[i], run), i + run;
    }
    next := MeasureLiteral(x, i, i + run);
    chunk := LiteralChunk(x, i, next);
  }

  lemma AppendChunk(out: Bytes, chunk: Bytes, x: Bytes, i: nat, next: nat)
    requires i < |x| && chunk == Chunk(x, i) && next == ChunkEnd(x, i)
    ensures out + chunk + Encode(x, next) == out + Encode(x, i)
  {
  }

  /** rle8 */
  method Pack(x: Bytes) returns (out: Bytes)
    ensures out == Encode(x, 0)
  {
    out := [];
    var i := 0;
    while i < |x|
      invariant i <= |x|
      invariant out + Encode(x, i) == Encode(x, 0)
      decreases |x| - i
    {
      var chunk, next := EmitChunk(x, i);
      AppendChunk(out, chunk, x, i, next);
      out := out + chunk;
      i := next;
    }
  }

  // ----------------------------------------------------------------
  // Decoder
  // ----------------------------------------------------------------

  function Repeat(v: byte, n: nat): (r: Bytes)
    ensures |r| == n
  {
    seq(n, i requires 0 <= i < n => v)
  }

  function Prepend(a: Bytes, rest: Option<Bytes>): Option<Bytes> {
    match rest
    case None => None
    case Some(b) => Some(a + b)
  }

  /** What one control byte stands for, and where the next one is. */
  datatype Piece = Malformed | Piece(bytes: Bytes, next: nat)

  function PieceAt(input: Bytes, i: nat, n: nat): (p: Piece)
    requires i < |input| && n > 0
    ensures p.Piece? ==> i < p.next <= |input| && 0 < |p.bytes| <= n
  {
    if input[i] < 128 then
      var len := input[i] as int + 1;
      if len > |input| - (i + 1) || len > n then Malformed
      else Piece(input[i + 1..i + 1 + len], i + 1 + len)
    else
      var len := input[i] as int - 128 + 3;
      if i + 1 >= |input| || len > n then Malformed
      else Piece(Repeat(input[i + 1], len), i + 2)
  }

  /** Decodes the input from position i into exactly n bytes. */
  function Decode(input: Bytes, i: nat, n: nat): (r: Option<Bytes>)
    requires i <= |input|
    ensures r.Some? ==> |r.value| == n
    decreases |input| - i
  {
    if i == |input| || n == 0 then (if i == |input| && n == 0 then Some([]) else None) else
    match PieceAt(input, i, n)
    case Malformed => None
    case Piece(bytes, next) => Prepend(bytes, Decode(input, next, n - |bytes|))
  }

  /** One turn of the loop of rle8_decode. */
  method DecodePiece(input: Bytes, i: nat, output: array<byte>, out: nat) returns (ok: bool, next: nat, end: nat)
    requires i < |input| && out < output.Length
    modifies output
    ensures ok == PieceAt(input, i, output.Length - out).Piece?
    ensures ok ==> var p := PieceAt(input, i, output.Length - out);
                   && next == p.next && end == out + |p.bytes|
                   && output[..end] == old(output[..out]) + p.bytes
  {
    var control := input[i];
    next := i + 1;
    if control < 128 {
      var length := control + 1;
      if length > |input| - next || length > output.Length - out {
        return false, next, out;
      }
      CopyLiteral(input, next, output, out, length);
      return true, next + length, out + length;
    } else {
      var length := control % 128 + 3;
      if next >= |input| || length > output.Length - out {
        return false, next, out;
      }
      FillRun(input[next], output, out, length);
      return true, next + 1, out + length;
    }
  }

  /** rle8_decode, filling the whole of the output buffer. */
  method Unpack(input: Bytes, output: array<byte>) returns (ok: bool)
    modifies output
    ensures ok == Decode(input, 0, output.Length).Some?
    ensures ok ==> Some(output[..]) == Decode(input, 0, output.Length)
  {
    var i, out := 0, 0;
    PrependNothing(Decode(input, 0, output.Length));
    while i < |input| && out < output.Length
      invariant 0 <= i <= |input| && 0 <= out <= output.Length
      invariant Prepend(output[..out], Decode(input, i, output.Length - out)) == Decode(input, 0, output.Length)
      decreases |input| - i
    {
      ghost var done, p := output[..out], PieceAt(input, i, output.Length - out);
      var good, next, end := DecodePiece(input, i, output, out);
      if !good {
        return false;
      }
      PrependTwice(done, p.bytes, Decode(input, next, output.Length - end));
      i, out := next, end;
    }
    assert output[..out] + [] == output[..out];
    assert out == output.Length ==> output[..out] == output[..];
    return i == |input| && out == output.Length;
  }

  lemma PrependNothing(rest: Option<Bytes>)
    ensures Prepend([], rest) == rest
  {
    if rest.Some? {
      assert [] + rest.value == rest.value;
    }
  }

  lemma PrependTwice(a: Bytes, b: Bytes, rest: Option<Bytes>)
    ensures Prepend(a + b, rest) == Prepend(a, Prepend(b, rest))
  {
    if rest.Some? {
      assert a + b + rest.value == a + (b + rest.value);
    }
  }

  method CopyLiteral(input: Bytes, i: nat, output: array<byte>, out: nat, length: nat)
    requires i + length <= |input| && out + length <= output.Length
    modifies output
    ensures output[..out + length] == old(output[..out]) + input[i..i + length]
  {
    var k := 0;
    while k < length
      invariant k <= length
      invariant output[..out + k] == old(output[..out]) + input[i..i + k]
    {
      output[out + k] := input[i + k];
      k := k + 1;
    }
  }

  method FillRun(value: byte, output: array<byte>, out: nat, length: nat)
    requires out + length <= output.Length
    modifies output
    ensures output[..out + length] == old(output[..out]) + Repeat(value, length)
  {
    var k := 0;
    while k < length
      invariant k <= length
      invariant output[..out + k] == old(output[..out]) + Repeat(value, k)
    {
      output[out + k] := value;
      k := k + 1;
    }
  }

  // ----------------------------------------------------------------
  // Round trip
  // ----------------------------------------------------------------

  /** Some literal chunk from i on has 129 bytes: its control byte is 128, which means a run. */
  predicate Overlong(x: Bytes, i: nat)
    requires i <= |x|
    decreases |x| - i
  {
    i < |x| && (OverlongAt(x, i) || Overlong(x, ChunkEnd(x, i)))
  }

  /** The bytes RunFrom counts are equal. */
  lemma {:induction false} RunEqual(x: Bytes, i: nat, run: nat)
    requires 1 <= run <= MAX_RUN && i + run <= |x| && forall k :: i <= k < i + run ==> x[k] == x[i]
    ensures forall k :: i <= k < i + RunFrom(x, i, run) ==> x[k] == x[i]
    decreases MAX_RUN - run
  {
    if i + run < |x| && x[i + run] == x[i] && run < MAX_RUN {
      RunEqual(x, i, run + 1);
    }
  }

  /** A run chunk of x from i on is the repeated byte. */
  lemma RunIsRepeat(x: Bytes, i: nat)
    requires i < |x|
    ensures x[i..i + RunAt(x, i)] == Repeat(x[i], RunAt(x, i))
  {
    RunEqual(x, i, 1);
  }

  /** Decoding looks only at the input from i on. */
  lemma PieceSuffix(p: Bytes, s: Bytes, i: nat, n: nat)
    requires i < |s| && n > 0
    ensures PieceAt(p + s, |p| + i, n) == match PieceAt(s, i, n) case Malformed => Malformed case Piece(b, j) => Piece(b, |p| + j)
  {
  }

  lemma {:induction false} DecodeSuffix(p: Bytes, s: Bytes, i: nat, n: nat)
    requires i <= |s|
    ensures Decode(p + s, |p| + i, n) == Decode(s, i, n)
    decreases |s| - i
  {
    if i < |s| && n != 0 {
      PieceSuffix(p, s, i, n);
      match PieceAt(s, i, n)
      case Malformed =>
      case Piece(b, j) => DecodeSuffix(p, s, j, n - |b|);
    }
  }

  predicate OverlongAt(x: Bytes, i: nat)
    requires i < |x|
  {
    RunAt(x, i) < 3 && ChunkEnd(x, i) - i == MAX_LITERAL + 1
  }

  /** A chunk that is not overlong reads back as the bytes it came from. */
  lemma ChunkReads(x: Bytes, i: nat, rest: Bytes)
    requires i < |x| && !OverlongAt(x, i)
    ensures PieceAt(Chunk(x, i) + rest, 0, |x| - i) == Piece(x[i..ChunkEnd(x, i)], |Chunk(x, i)|)
  {
    var c, e := Chunk(x, i), ChunkEnd(x, i);
    var w := c + rest;
    assert w[0] == c[0];
    if RunAt(x, i) >= 3 {
      RunIsRepeat(x, i);
    } else {
      assert w[1..1 + (e - i)] == x[i..e];
    }
  }

  lemma DecodeStep(input: Bytes, n: nat, bytes: Bytes, next: nat)
    requires input != [] && n > 0 && PieceAt(input, 0, n) == Piece(bytes, next)
    ensures Decode(input, 0, n) == Prepend(bytes, Decode(input, next, n - |bytes|))
  {
  }

  lemma {:induction false} PieceDecodes(c: Bytes, rest: Bytes, n: nat, b: Bytes)
    requires c != [] && 0 < |b| <= n && PieceAt(c + rest, 0, n) == Piece(b, |c|)
    ensures Decode(c + rest, 0, n) == Prepend(b, Decode(rest, 0, n - |b|))
  {
    DecodeStep(c + rest, n, b, |c|);
    DecodeSuffix(c, rest, 0, n - |b|);
  }

  lemma {:induction false} ChunkDecodes(x: Bytes, i: nat, rest: Bytes)
    requires i < |x| && !OverlongAt(x, i)
    ensures Decode(Chunk(x, i) + rest, 0, |x| - i) == Prepend(x[i..ChunkEnd(x, i)], Decode(rest, 0, |x| - ChunkEnd(x, i)))
  {
    ChunkReads(x, i, rest);
    PieceDecodes(Chunk(x, i), rest, |x| - i, x[i..ChunkEnd(x, i)]);
  }

  lemma {:induction false} RoundTrip(x: Bytes, i: nat)
    requires i <= |x| && !Overlong(x, i)
    ensures Decode(Encode(x, i), 0, |x| - i) == Some(x[i..])
    decreases |x| - i
  {
    if i < |x| {
      var e := ChunkEnd(x, i);
      RoundTrip(x, e);
      RoundTripStep(x, i, Encode(x, e));
    } else {
      assert x[i..] == [];
    }
  }

  lemma {:induction false} RoundTripStep(x: Bytes, i: nat, rest: Bytes)
    requires i < |x| && !OverlongAt(x, i) && Decode(rest, 0, |x| - ChunkEnd(x, i)) == Some(x[ChunkEnd(x, i)..])
    ensures Decode(Chunk(x, i) + rest, 0, |x| - i) == Some(x[i..])
  {
    ChunkDecodes(x, i, rest);
    PrependRest(x, i, ChunkEnd(x, i));
  }

  lemma PrependRest(x: Bytes, i: nat, e: nat)
    requires i <= e <= |x|
    ensures Prepend(x[i..e], Some(x[e..])) == Some(x[i..])
  {
    assert x[i..] == x[i..e] + x[e..];
  }

  /** An overlong literal decodes, if at all, to something that starts with three equal bytes, and x does not. */
  lemma OverlongBreaks(x: Bytes, i: nat, rest: Bytes)
    requires i < |x| && OverlongAt(x, i)
    ensures Decode(Chunk(x, i) + rest, 0, |x| - i) != Some(x[i..])
  {
  }

  lemma {:induction false} OverlongFails(x: Bytes, i: nat)
    requires i <= |x| && Overlong(x, i)
    ensures Decode(Encode(x, i), 0, |x| - i) != Some(x[i..])
    decreases |x| - i
  {
    var e := ChunkEnd(x, i);
    if OverlongAt(x, i) {
      OverlongBreaks(x, i, Encode(x, e));
    } else {
      OverlongFails(x, e);
      ChunkDecodes(x, i, Encode(x, e));
      if Prepend(x[i..e], Decode(Encode(x, e), 0, |x| - e)) == Some(x[i..]) {
        RestDecodes(x, i, e, Decode(Encode(x, e), 0, |x| - e));
      }
    }
  }

  lemma RestDecodes(x: Bytes, i: nat, e: nat, rest: Option<Bytes>)
    requires i <= e <= |x| && Prepend(x[i..e], rest) == Some(x[i..])
    ensures rest == Some(x[e..])
  {
    assert rest.value == (x[i..e] + rest.value)[e - i..];
    assert x[e..] == x[i..][e - i..];
  }

  /** Unpacking a packed module gives the module back exactly when no literal chunk has 129 bytes. */
  lemma RoundTripIff(x: Bytes)
    ensures Decode(Encode(x, 0), 0, |x|) == Some(x) <==> !Overlong(x, 0)
  {
    assert x[0..] == x;
    if Overlong(x, 0) {
      OverlongFails(x, 0);
    } else {
      RoundTrip(x, 0);
    }
  }

  // ----------------------------------------------------------------
  // Inputs that break it
  // ----------------------------------------------------------------

  /** No byte occurs three times in a row. */
  ghost predicate NoTriple(x: Bytes) {
    forall i :: 0 <= i < |x| - 2 ==> x[i] != x[i + 1] || x[i + 1] != x[i + 2]
  }

  lemma SmallRun(x: Bytes, i: nat)
    requires NoTriple(x) && i < |x|
    ensures RunAt(x, i) == if i + 1 < |x| && x[i + 1] == x[i] then 2 else 1
  {
  }

  /** A literal whose bytes never repeat three times stops at every change of byte, so also at 127. */
  lemma {:induction false} LiteralReaches(x: Bytes, i: nat)
    requires NoTriple(x) && |x| >= 129 && x[126] != x[127] && x[127] == x[128]
    requires 0 < i <= 127 && x[i - 1] != x[i]
    ensures LiteralEnd(x, 0, i) == 129
    decreases 127 - i
  {
    SmallRun(x, i);
    if i < 127 {
      LiteralReaches(x, i + RunAt(x, i));
    } else {
      assert LiteralEnd(x, 0, 127) == LiteralEnd(x, 0, 129);
    }
  }

  /** A family of inputs the codec does not bring back. */
  lemma NoTripleBreaks(x: Bytes)
    requires NoTriple(x) && |x| >= 129 && x[126] != x[127] && x[127] == x[128]
    ensures Decode(Encode(x, 0), 0, |x|) != Some(x)
  {
    SmallRun(x, 0);
    LiteralReaches(x, RunAt(x, 0));
    RoundTripIff(x);
  }

  lemma RoundTripCounterexample()
    ensures var x: Bytes := seq(129, i => if i == 128 then 1 else i % 2); Decode(Encode(x, 0), 0, |x|) != Some(x)
  {
    var x: Bytes := seq(129, i => if i == 128 then 1 else i % 2);
    assert forall i :: 0 <= i < |x| - 2 ==> x[i] != x[i + 1];
    NoTripleBreaks(x);
  }

  // ----------------------------------------------------------------
  // Format
  // ----------------------------------------------------------------

  /** A run goes on as far as it can: to 130 bytes, to the end or to the next different byte. */
  lemma {:induction false} RunMaximal(x: Bytes, i: nat, run: nat)
    requires 1 <= run <= MAX_RUN && i + run <= |x|
    ensures var r := RunFrom(x, i, run); r == MAX_RUN || i + r == |x| || x[i + r] != x[i]
    decreases MAX_RUN - run
  {
    if i + run < |x| && x[i + run] == x[i] && run < MAX_RUN {
      RunMaximal(x, i, run + 1);
    }
  }

  /** 3 to 130 equal bytes become the two bytes run + 125 and the byte, and are read back from them. */
  lemma RunFormat(v: byte, n: nat)
    requires 3 <= n <= 130
    ensures Encode(Repeat(v, n), 0) == [n + 125, v] && Decode([n + 125, v], 0, n) == Some(Repeat(v, n))
  {
    var x := Repeat(v, n);
    RunMaximal(x, 0, 1);
    assert RunAt(x, 0) == n;
    ChunkIs(x, 0, n);
    assert Chunk(x, 0) + [] == [n + 125, v];
    var c: Bytes := [n + 125, v];
    assert PieceAt(c, 0, n) == Piece(Repeat(c[1], n), 2);
    WholePiece(c, Repeat(v, n));
  }

  lemma LiteralPiece(c: Bytes, data: Bytes)
    requires 1 <= |data| <= 128 && |c| == |data| + 1 && c[0] == |data| - 1 && c[1..] == data
    ensures PieceAt(c, 0, |data|) == Piece(data, |c|)
  {
  }

  lemma {:induction false} WholePiece(c: Bytes, data: Bytes)
    requires c != [] && data != [] && PieceAt(c, 0, |data|) == Piece(data, |c|)
    ensures Decode(c, 0, |data|) == Some(data)
  {
    DecodeStep(c, |data|, data, |c|);
    assert Decode(c, |c|, 0) == Some([]);
    assert data + [] == data;
  }

  /** A control byte below 128 is followed by one byte more than it says, taken as they are. */
  lemma LiteralFormat(data: Bytes)
    requires 1 <= |data| <= 128
    ensures Decode([|data| - 1] + data, 0, |data|) == Some(data)
  {
    var c: Bytes := [|data| - 1] + data;
    LiteralPiece(c, data);
    WholePiece(c, data);
  }

  // ----------------------------------------------------------------
  // Size
  // ----------------------------------------------------------------

  /** Packing n bytes never takes more than n + n/128 + 1, and no surplus byte if they start with a run. */
  lemma {:induction false} EncodedSize(x: Bytes, i: nat)
    requires i <= |x|
    ensures var n := |x| - i; |Encode(x, i)| <= n + n / 128 + (if i == |x| || RunAt(x, i) >= 3 then 0 else 1)
    decreases |x| - i
  {
    if i < |x| {
      var e := ChunkEnd(x, i);
      EncodedSize(x, e);
      ChunkSize(x, i, e);
      ChunkStops(x, i, e);
      Budget(|x| - i, e - i, RunAt(x, i) >= 3, |Encode(x, e)|, if e == |x| || RunAt(x, e) >= 3 then 0 else 1);
    }
  }

  lemma ChunkSize(x: Bytes, i: nat, e: nat)
    requires i < |x| && e == ChunkEnd(x, i)
    ensures |Encode(x, i)| == (if RunAt(x, i) >= 3 then 2 else e - i + 1) + |Encode(x, e)|
  {
  }

  lemma ChunkStops(x: Bytes, i: nat, e: nat)
    requires i < |x| && e == ChunkEnd(x, i)
    ensures RunAt(x, i) >= 3 ==> e - i >= 3
    ensures RunAt(x, i) < 3 ==> e == |x| || e - i >= MAX_LITERAL || RunAt(x, e) >= 3
  {
    if RunAt(x, i) < 3 {
      LiteralStops(x, i, i + RunAt(x, i));
    }
  }

  /** A chunk of l bytes out of n, followed by an encoding of size f that keeps the bound with surplus s. */
  lemma Budget(n: nat, l: nat, run: bool, f: nat, s: nat)
    requires l <= n && s <= 1 && f <= n - l + (n - l) / 128 + s
    requires if run then l >= 3 else s == 0 || l >= 128
    ensures (if run then 2 else l + 1) + f <= n + n / 128 + (if run then 0 else 1)
  {
  }

  /** A literal stops at the end, before a run, or when it has 128 bytes or more. */
  lemma {:induction false} LiteralStops(x: Bytes, start: nat, i: nat)
    requires start < i <= |x| && i - start <= MAX_LITERAL + 1
    ensures var e := LiteralEnd(x, start, i); e == |x| || e - start >= MAX_LITERAL || RunAt(x, e) >= 3
    decreases |x| - i
  {
    if i < |x| && i - start < MAX_LITERAL && RunAt(x, i) < 3 {
      LiteralStops(x, start, i + RunAt(x, i));
    }
  }
}
