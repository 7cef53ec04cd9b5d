/** Any run of writes, flushed, is read back field by field. */
module BitFields {
  import opened Arith
  import opened Words
  import opened Sequences
  import opened BitSeq
  import opened BitStream

  /** A call of `write`: a value and a number of bits. */
  datatype Field = Field(value: u64, width: nat)

  ghost function FieldBits(fields: seq<Field>): seq<bool> {
    if fields == [] then [] else ToBits(fields[0].value, fields[0].width) + FieldBits(fields[1..])
  }

  lemma {:induction false} FieldBitsSnoc(fields: seq<Field>, f: Field)
    ensures FieldBits(fields + [f]) == FieldBits(fields) + ToBits(f.value, f.width)
  {
    if fields == [] {
      assert [f][1..] == [];
    } else {
      FieldBitsSnoc(fields[1..], f);
      assert (fields + [f])[1..] == fields[1..] + [f];
      Assoc(ToBits(fields[0].value, fields[0].width), FieldBits(fields[1..]), ToBits(f.value, f.width));
    }
  }

  /** The bytes hold the bits and fewer than eight zero bits behind them. */
  ghost predicate Padded(bytes: seq<u8>, bits: seq<bool>) {
    exists pad: nat :: pad < 8 && BytesBits(bytes) == bits + Repeat(false, pad)
  }

  /** Writes all fields and flushes: their bits in order, then fewer than eight zero bits. */
  method WriteAll(fields: seq<Field>) returns (bytes: seq<u8>)
    requires forall f :: f in fields ==> f.width <= 64
    ensures Padded(bytes, FieldBits(fields))
  {
    var w := new BitStreamWriter([]);
    for i := 0 to |fields|
      invariant w.Valid() && w.Bits() == FieldBits(fields[..i])
      invariant fresh(w)
    {
      FieldBitsSnoc(fields[..i], fields[i]);
      assert fields[..i + 1] == fields[..i] + [fields[i]];
      var _ := w.Write(fields[i].value, fields[i].width);
    }
    assert fields[..|fields|] == fields;
    ghost var pad := if w.offset > 0 then 8 - w.offset else 0;
    var _ := w.Flush();
    bytes := w.out;
  }

  /** The first field of what is left to read. */
  lemma FirstField(fields: seq<Field>, tail: seq<bool>)
    requires fields != []
    ensures var all := FieldBits(fields) + tail;
            && fields[0].width <= |all|
            && FromBits(all[..fields[0].width]) == Low(fields[0].value, fields[0].width)
            && all[fields[0].width..] == FieldBits(fields[1..]) + tail
  {
    var f := fields[0];
    FromToBits(f.value, f.width);
    HeadBits(ToBits(f.value, f.width), FieldBits(fields[1..]), tail);
  }

  lemma HeadBits(a: seq<bool>, b: seq<bool>, c: seq<bool>)
    ensures ((a + b) + c)[..|a|] == a && ((a + b) + c)[|a|..] == b + c
  {
  }

  /** Reading the widths of the fields from such bytes returns every value, cut to its width. */
  method ReadAll(bytes: seq<u8>, fields: seq<Field>) returns (values: seq<u64>)
    requires forall f :: f in fields ==> f.width <= 64
    requires Padded(bytes, FieldBits(fields))
    ensures |values| == |fields|
    ensures forall i :: 0 <= i < |fields| ==> values[i] == Low(fields[i].value, fields[i].width)
  {
    hide Low, FromBits, BytesBits, FieldBits, BitStreamReader.Remaining;
    ghost var pad: nat :| pad < 8 && BytesBits(bytes) == FieldBits(fields) + Repeat(false, pad);
    var r := new BitStreamReader(bytes);
    values := [];
    for i := 0 to |fields|
      invariant fresh(r) && r.Valid() && r.Remaining() == FieldBits(fields[i..]) + Repeat(false, pad)
      invariant |values| == i
      invariant forall j :: 0 <= j < i ==> values[j] == Low(fields[j].value, fields[j].width)
    {
      FirstField(fields[i..], Repeat(false, pad));
      assert fields[i..][0] == fields[i] && fields[i..][1..] == fields[i + 1..];
      var res := r.Read(fields[i].width);
      values := values + [res.value];
    }
  }

  /** The round trip over every run of writes, whatever the byte alignment. */
  method WriteThenRead(fields: seq<Field>) returns (values: seq<u64>)
    requires forall f :: f in fields ==> f.width <= 64
    ensures |values| == |fields|
    ensures forall i :: 0 <= i < |fields| ==> values[i] == fields[i].value % Pow2(fields[i].width)
  {
    var bytes := WriteAll(fields);
    values := ReadAll(bytes, fields);
  }
}
