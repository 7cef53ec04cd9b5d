/** Bitwise writer and reader over a byte stream with a one-byte buffer. */
module BitStream {
  import opened Arith
  import opened Bitwise
  import opened Words
  import opened Sequences
  import opened BitSeq

  /** The n low bits of data moved to the top of a w-bit word, and the first of them brought down. */
  lemma TopOfWord(data: nat, n: nat, w: nat, bits: nat)
    requires bits <= n <= w
    ensures data * Pow2(w - n) % Pow2(w) == Low(data, n) * Pow2(w - n)
    ensures Low(data, n) * Pow2(w - n) / Pow2(w - bits) == Low(High(data, n - bits), bits)
  {
    var r := n - bits;
    Pow2Split(w - n, w);
    ScaleMod(data, Pow2(w - n), Pow2(n));
    Pow2Add(w - n, r);
    ScaleMod(Low(data, n), Pow2(w - n), Pow2(r));
    HighHigh(data, r, bits);
  }

  // ----- writer -----

  /** The bits held by the finished bytes and the first `offset` bits of the buffer. */
  ghost function WriterBits(out: seq<u8>, buffer: u8, offset: nat): seq<bool>
    requires offset <= 8
  {
    BytesBits(out) + ToBits(High(buffer, 8 - offset), offset)
  }

  /** The buffer byte has nothing below its first `offset` bits. */
  ghost predicate CleanBuffer(buffer: nat, offset: nat) {
    offset <= 8 && Low(buffer, 8 - offset) == 0
  }

  lemma ChunkWide(data: nat, n: nat, offset: nat)
    requires n <= 64 && offset < 8 && n >= 8 - offset
    ensures data * Pow2(64 - n) % Pow2(64) / Pow2(56 + offset)
         == Low(High(data, n - (8 - offset)), 8 - offset) * Pow2(0)
  {
    assert Pow2(0) == 1;
    TopOfWord(data, n, 64, 8 - offset);
  }

  lemma ChunkNarrow(data: nat, n: nat, offset: nat)
    requires 0 < n < 8 - offset
    ensures data * Pow2(64 - n) % Pow2(64) / Pow2(56 + offset) == Low(High(data, 0), n) * Pow2(8 - offset - n)
  {
    var d := Low(data, n);
    TopOfWord(data, n, 64, n);
    assert High(data, 0) == data;
    Pow2Add(8 - offset - n, 56 + offset);
    MulAssoc(d, Pow2(8 - offset - n), Pow2(56 + offset));
    DivModUnique(d * Pow2(64 - n), Pow2(56 + offset), d * Pow2(8 - offset - n), 0);
  }

  /** The next bits of `data`, of which n are left, moved under the `offset` bits in use. */
  method Chunk(data: u64, n: nat, offset: nat) returns (c: nat)
    requires 0 < n <= 64 && offset < 8
    ensures var bits := Min(8 - offset, n); c == Low(High(data, n - bits), bits) * Pow2(8 - offset - bits)
  {
    WordSizes();
    if n < 8 - offset {
      ChunkNarrow(data, n, offset);
    } else {
      ChunkWide(data, n, offset);
    }
    c := data * Pow2(64 - n) % MAX64 / Pow2(56 + offset);
  }

  lemma JoinArithmetic(buffer: int, h: int, t: int, a: int, b: int, p: int, q: int)
    requires buffer == h * p && p == a * b && 0 <= t < a && 0 < b && 0 <= buffer < q * p
    ensures 0 <= t * b < p
    ensures buffer + t * b < q * p
    ensures (buffer + t * b) % b == 0 && (buffer + t * b) / b == h * a + t
  {
    MulMono(0, t, b);
    MulMono(t + 1, a, b);
    if h >= q {
      MulMono(q, h, p);
    }
    MulMono(h + 1, q, p);
    MulAssoc(h, a, b);
    var v := h * a + t;
    assert buffer + t * b == v * b;
    DivModUnique(v * b, b, v, 0);
  }

  /** A byte in use up to `offset`, with `bits` bits t put behind by "or". */
  lemma BufferJoin(buffer: u8, offset: nat, t: nat, bits: nat, r: nat, c: nat)
    requires bits <= 8 - offset && r == 8 - offset - bits
    requires CleanBuffer(buffer, offset) && t < Pow2(bits) && c == t * Pow2(r)
    ensures Or(buffer, c) < 256
    ensures Low(Or(buffer, c), r) == 0
    ensures High(Or(buffer, c), r) == High(buffer, 8 - offset) * Pow2(bits) + t
  {
    var k := 8 - offset;
    var h := High(buffer, k);
    HighLow(buffer, k);
    Pow2Add(bits, r);
    Pow2Add(offset, k);
    assert Pow2(8) == 256;
    JoinArithmetic(buffer, h, t, Pow2(bits), Pow2(r), Pow2(k), Pow2(offset));
    OrDisjoint(h, k, c);
  }

  /** The buffer with the next chunk put in. */
  method PutChunk(buffer: u8, offset: nat, data: u64, n: nat, bits: nat) returns (joined: u8)
    requires 0 < n <= 64 && offset < 8 && CleanBuffer(buffer, offset) && bits == Min(8 - offset, n)
    ensures CleanBuffer(joined, offset + bits)
    ensures ToBits(High(joined, 8 - (offset + bits)), offset + bits)
         == ToBits(High(buffer, 8 - offset), offset) + ToBits(High(data, n - bits), bits)
  {
    ghost var x := High(data, n - bits);
    var c := Chunk(data, n, offset);
    BufferJoin(buffer, offset, Low(x, bits), bits, 8 - (offset + bits), c);
    joined := Or(buffer, c);
    ToBitsJoin(High(buffer, 8 - offset), offset, x, bits, High(joined, 8 - (offset + bits)));
  }

  /** Writing one chunk appends its bits. */
  lemma WriteStep(out: seq<u8>, buffer: u8, offset: nat, data: u64, n: nat, bits: nat, joined: u8)
    requires bits <= n && offset + bits <= 8
    requires ToBits(High(joined, 8 - (offset + bits)), offset + bits)
          == ToBits(High(buffer, 8 - offset), offset) + ToBits(High(data, n - bits), bits)
    ensures WriterBits(out, joined, offset + bits) + ToBits(data, n - bits)
         == WriterBits(out, buffer, offset) + ToBits(data, n)
  {
    ToBitsSplit(data, bits, n - bits);
    Regroup(BytesBits(out), ToBits(High(buffer, 8 - offset), offset),
            ToBits(High(data, n - bits), bits), ToBits(data, n - bits));
  }

  lemma Regroup(a: seq<bool>, b: seq<bool>, c: seq<bool>, d: seq<bool>)
    ensures a + (b + c) + d == a + b + (c + d)
  {
  }

  class BitStreamWriter {
    var out: seq<u8>
    var buffer: u8
    var offset: nat

    ghost predicate Valid()
      reads this
    {
      offset < 8 && CleanBuffer(buffer, offset)
    }

    /** Everything written so far. */
    ghost function Bits(): seq<bool>
      reads this
      requires Valid()
    {
      WriterBits(out, buffer, offset)
    }

    /** A writer appending to bytes that are already there. */
    constructor (sink: seq<u8>)
      ensures Valid() && Bits() == BytesBits(sink)
      ensures out == sink && offset == 0
    {
      out, buffer, offset := sink, 0, 0;
      new;
      SmallMod(0, Pow2(8));
      assert ToBits(High(buffer, 8), 0) == [];
    }

    /** `flush`: a partly filled buffer goes out with zero bits behind it. */
    method Flush() returns (wrote: nat)
      requires offset <= 8 && CleanBuffer(buffer, offset)
      modifies this
      ensures Valid() && offset == 0
      ensures old(out) <= out && wrote == |out| - |old(out)| <= 1
      ensures BytesBits(out) == WriterBits(old(out), old(buffer), old(offset))
                              + Repeat(false, if old(offset) > 0 then 8 - old(offset) else 0)
      ensures Bits() == BytesBits(out)
      ensures old(offset) == 8 ==> Bits() == WriterBits(old(out), old(buffer), 8)
    {
      FlushedBits(out, buffer, offset);
      if offset > 0 {
        out := out + [buffer];
        buffer := 0;
        offset := 0;
        wrote := 1;
      } else {
        wrote := 0;
      }
      SmallMod(0, Pow2(8));
      assert ToBits(High(buffer, 8), 0) == [];
    }

    /** One turn of the loop of `write`: as many of the n bits left as the buffer takes. */
    method WriteChunk(data: u64, n: nat) returns (left: nat, wrote: nat)
      requires Valid() && 0 < n <= 64
      modifies this
      ensures Valid() && left < n
      ensures Bits() + ToBits(data, left) == old(Bits()) + ToBits(data, n)
      ensures old(out) <= out && |out| == |old(out)| + wrote
    {
      var bits := Min(8 - offset, n);
      var joined := PutChunk(buffer, offset, data, n, bits);
      WriteStep(out, buffer, offset, data, n, bits, joined);
      buffer := joined;
      offset := offset + bits;
      left, wrote := n - bits, 0;
      if offset == 8 {
        wrote := Flush();
      }
    }

    /** `write`: appends the nbits low bits of data, at most 64 at once. */
    method Write(data: u64, nbits: nat) returns (r: Result<nat, IoError>)
      requires Valid()
      modifies this
      ensures Valid()
      ensures nbits > 64 ==> r == Err(TooManyBits) && Bits() == old(Bits()) && out == old(out)
      ensures nbits <= 64 ==> Bits() == old(Bits()) + ToBits(data, nbits)
      ensures nbits <= 64 ==> old(out) <= out && r == Ok(|out| - |old(out)|)
    {
      if nbits > 64 {
        return Err(TooManyBits);
      }
      var n, wrote := nbits, 0;
      ghost var goal := Bits() + ToBits(data, nbits);
      while n > 0
        invariant Valid() && 0 <= n <= 64
        invariant Bits() + ToBits(data, n) == goal
        invariant old(out) <= out && |out| == |old(out)| + wrote
      {
        var more;
        n, more := WriteChunk(data, n);
        wrote := wrote + more;
      }
      assert ToBits(data, 0) == [];
      r := Ok(wrote);
    }
  }

  lemma FlushedBits(out: seq<u8>, buffer: u8, offset: nat)
    requires CleanBuffer(buffer, offset)
    ensures offset > 0 ==> BytesBits(out + [buffer]) == WriterBits(out, buffer, offset) + Repeat(false, 8 - offset)
    ensures offset == 0 ==> BytesBits(out) == WriterBits(out, buffer, offset) + Repeat(false, 0)
  {
    hide BytesBits, ToBits, Pow2;
    var k := 8 - offset;
    BytesBitsConcat(out, [buffer]);
    BytesBitsOne(buffer);
    ToBitsSplit(buffer, offset, k);
    ToBitsLow(buffer, k);
    ZeroBits(k);
  }

  // ----- reader -----

  /** The bits still to be read: the low 8 - offset bits of the buffer, then the rest. */
  ghost function ReaderBits(buffer: u8, offset: nat, rest: seq<u8>): seq<bool>
    requires offset <= 8
  {
    ToBits(buffer, 8 - offset) + BytesBits(rest)
  }

  /** The next `bits` bits of the buffer, cut out with two shifts. */
  method TakePiece(buffer: u8, offset: nat, bits: nat) returns (c: nat, ghost piece: seq<bool>)
    requires offset < 8 && 0 < bits <= 8 - offset
    ensures |piece| == bits && c == FromBits(piece)
    ensures ToBits(buffer, 8 - offset) == piece + ToBits(buffer, 8 - (offset + bits))
  {
    ghost var x := High(buffer, 8 - (offset + bits));
    c := Shifts(buffer, offset, bits);
    piece := ToBits(x, bits);
    FromToBits(x, bits);
    ToBitsSplit(buffer, bits, 8 - (offset + bits));
  }

  method Shifts(buffer: u8, offset: nat, bits: nat) returns (c: nat)
    requires offset < 8 && 0 < bits <= 8 - offset
    ensures c == Low(High(buffer, 8 - (offset + bits)), bits)
  {
    assert Pow2(8) == 256;
    TopOfWord(buffer, 8 - offset, 8, bits);
    c := (buffer * Pow2(offset) % 256) / Pow2(8 - bits);
  }

  lemma ShiftBound(acc: int, t: int, b: int, c: int, m: int)
    requires 0 <= acc < t && 0 <= c < b && t * b <= m
    ensures 0 <= acc * b && acc * b + c < m
  {
    MulMono(0, acc, b);
    MulMono(acc + 1, t, b);
  }

  /** Shifting in `bits` new bits under fewer than 64 old ones. */
  method ShiftIn(acc: u64, c: nat, bits: nat, ghost taken: nat) returns (acc': u64)
    requires acc < Pow2(taken) && c < Pow2(bits) && taken + bits <= 64
    ensures acc' == acc * Pow2(bits) + c
  {
    WordSizes();
    Pow2Add(taken, bits);
    Pow2Mono(taken + bits, 64);
    ShiftBound(acc, Pow2(taken), Pow2(bits), c, MAX64);
    SmallMod(acc * Pow2(bits), MAX64);
    OrDisjoint(acc, bits, c);
    acc' := Or(acc * Pow2(bits) % MAX64, c);
  }

  class BitStreamReader {
    const data: seq<u8>
    var pos: nat
    var buffer: u8
    var offset: nat

    ghost predicate Valid()
      reads this
    {
      pos <= |data| && offset <= 8
    }

    ghost function Remaining(): seq<bool>
      reads this
      requires Valid()
    {
      ReaderBits(buffer, offset, data[pos..])
    }

    constructor (source: seq<u8>)
      ensures Valid() && Remaining() == BytesBits(source)
    {
      data, pos, buffer, offset := source, 0, 0, 8;
      new;
      assert data[0..] == source && ToBits(buffer, 0) == [];
    }

    /** Fetches a byte when the buffer is used up; false at the end of the input. */
    method Refill() returns (ok: bool)
      requires Valid()
      modifies this
      ensures Valid() && Remaining() == old(Remaining())
      ensures ok <==> Remaining() != []
      ensures ok ==> offset < 8
    {
      ok := true;
      if offset == 8 {
        if pos == |data| {
          ok := false;
          assert data[pos..] == [] && ToBits(buffer, 0) == [];
        } else {
          RefilledBits(buffer, data[pos..]);
          buffer := data[pos];
          pos := pos + 1;
          offset := 0;
          assert data[pos..] == old(data[pos..])[1..];
        }
      }
    }

    /** One turn of the loop of `read`: `piece` moves from the stream into the number. */
    method ReadChunk(acc: u64, n: nat, ghost done: seq<bool>) returns (acc': u64, bits: nat, ghost piece: seq<bool>)
      requires Valid() && offset < 8 && 0 < n && |done| + n <= 64 && acc == FromBits(done)
      modifies this
      ensures Valid() && 0 < bits == |piece| <= n
      ensures old(Remaining()) == piece + Remaining()
      ensures acc' == FromBits(done + piece)
    {
      hide FromBits, ToBits, BytesBits, Pow2;
      bits := Min(8 - offset, n);
      var c;
      c, piece := TakePiece(buffer, offset, bits);
      acc' := ShiftIn(acc, c, bits, |done|);
      FromBitsConcat(done, piece);
      offset := offset + bits;
    }

    /** The loop of `read`: fails when the stream ends before nbits bits are done. */
    method ReadBits(nbits: nat) returns (ok: bool, acc: u64, ghost done: seq<bool>)
      requires Valid() && nbits <= 64
      modifies this
      ensures Valid() && old(Remaining()) == done + Remaining() && acc == FromBits(done)
      ensures if ok then |done| == nbits else |done| < nbits && Remaining() == []
    {
      var n := nbits;
      ok, acc, done := true, 0, [];
      while n > 0
        invariant Valid() && 0 <= n && |done| + n == nbits
        invariant old(Remaining()) == done + Remaining()
        invariant acc == FromBits(done)
      {
        ok := Refill();
        if !ok {
          return;
        }
        var bits;
        ghost var piece;
        acc, bits, piece := ReadChunk(acc, n, done);
        Assoc(done, piece, Remaining());
        done := done + piece;
        n := n - bits;
      }
      ok := true;
    }

    /** `read`: the next nbits bits as a number, or an error when they are not there. */
    method Read(nbits: nat) returns (r: Result<u64, IoError>)
      requires Valid()
      modifies this
      ensures Valid()
      ensures nbits > 64 ==> r == Err(TooManyBits) && Remaining() == old(Remaining())
      ensures nbits <= 64 && nbits <= |old(Remaining())| ==>
                && r == Ok(FromBits(old(Remaining())[..nbits]))
                && Remaining() == old(Remaining())[nbits..]
      ensures nbits <= 64 && nbits > |old(Remaining())| ==> r == Err(UnexpectedEof) && Remaining() == []
    {
      if nbits > 64 {
        return Err(TooManyBits);
      }
      var ok, acc, done := ReadBits(nbits);
      SplitAt(old(Remaining()), done, Remaining());
      r := if ok then Ok(acc) else Err(UnexpectedEof);
    }
  }

  lemma RefilledBits(buffer: u8, rest: seq<u8>)
    requires rest != []
    ensures ReaderBits(rest[0], 0, rest[1..]) == ReaderBits(buffer, 8, rest)
  {
    assert rest == [rest[0]] + rest[1..];
    BytesBitsConcat([rest[0]], rest[1..]);
    BytesBitsOne(rest[0]);
  }
}
