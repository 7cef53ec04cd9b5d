/** The base58 encoder: little-endian digits built in place, then reversed into characters. */
module Base58Encode {
  import opened Arith
  import opened Words
  import opened Radix
  import opened Base58

  /** A vector whose first 100 elements live in a fixed array. */
  class SmallVec {
    var len: nat
    const stack: array<u8>
    var heap: seq<u8>

    ghost predicate Valid()
      reads this
    {
      && stack.Length == 100 && len <= 100
      && (heap != [] ==> len == 100)
    }

    /** What the chained iterator over both parts yields. */
    ghost function Contents(): seq<u8>
      requires Valid()
      reads this, stack
    {
      stack[..len] + heap
    }

    constructor ()
      ensures Valid() && Contents() == [] && fresh(stack)
    {
      len := 0;
      stack := new u8[100](_ => 0);
      heap := [];
    }

    method Push(val: u8)
      requires Valid()
      modifies this, stack
      ensures Valid() && Contents() == old(Contents()) + [val]
    {
      if len < 100 {
        stack[len] := val;
        len := len + 1;
      } else {
        heap := heap + [val];
      }
    }

    function Size(): (n: nat)
      requires Valid()
      reads this, stack
      ensures n == |Contents()|
    {
      len + |heap|
    }

    /** The element the chained iterator yields at step i. */
    function Get(i: nat): (x: u8)
      requires Valid() && i < Size()
      reads this, stack
      ensures x == Contents()[i]
    {
      if i < len then stack[i] else heap[i - len]
    }

    /** An assignment through the chained mutable iterator. */
    method Set(i: nat, x: u8)
      requires Valid() && i < Size()
      modifies this, stack
      ensures Valid() && Contents() == old(Contents())[i := x]
    {
      if i < len {
        stack[i] := x;
      } else {
        heap := heap[i - len := x];
      }
    }
  }

  /** Digits with the least significant first and no zero at the top. */
  ghost predicate Normal(s: seq<nat>) {
    Digits(58, s) && (s != [] ==> s[|s| - 1] != 0)
  }

  /** A canonical number stays canonical when it grows without a new digit. */
  lemma StaysNormal(ws: seq<nat>, orig: seq<nat>)
    requires Digits(58, ws) && |ws| == |orig| && Normal(orig)
    requires ValueLe(58, ws) >= ValueLe(58, orig)
    ensures Normal(ws)
  {
    if ws != [] && ws[|ws| - 1] == 0 {
      var n := |ws| - 1;
      assert ws == ws[..n] + [0];
      ValueLeSnoc(58, ws[..n], 0);
      ValueLeBound(58, ws[..n]);
      ValueFloor(58, Rev(orig));
    }
  }

  /** One more digit is taken from the carry. */
  lemma PushStep(s: seq<nat>, carry: nat, x: nat, q: nat, total: nat)
    requires ValueLe(58, s) + carry * Pow(58, |s|) == total
    requires x == carry % 58 && q == carry / 58
    ensures ValueLe(58, s + [x]) + q * Pow(58, |s| + 1) == total
  {
    hide ValueLe, Pow;
    ValueLeSnoc(58, s, x);
    PowSucc(58, |s|);
    CarryStep(58, Pow(58, |s|), ValueLe(58, s), 0, carry, 0, 0, total, carry);
  }

  /** The first inner loop: X = X * 256 + d, the digits present first. */
  method MultiplyIn(ret: SmallVec, d: u8) returns (carry: nat)
    requires ret.Valid() && Normal(ret.Contents())
    modifies ret, ret.stack
    ensures ret.Valid() && Digits(58, ret.Contents()) && |ret.Contents()| == |old(ret.Contents())|
    ensures carry < 256
    ensures ValueLe(58, ret.Contents()) + carry * Pow(58, |ret.Contents()|)
         == 256 * ValueLe(58, old(ret.Contents())) + d
  {
    hide ValueLe, Pow, MulAdded, SmallVec.Contents;
    carry := d;
    ghost var orig: seq<nat> := ret.Contents();
    MulAddedStart(58, orig, 256, d);
    var i: nat := 0;
    while i < ret.Size()
      invariant ret.Valid() && |ret.Contents()| == |orig| && i <= |orig|
      invariant carry < 256 && Digits(58, ret.Contents())
      invariant MulAdded(58, ret.Contents(), orig, i, carry, 256, d)
      decreases |orig| - i
    {
      ghost var before: seq<nat> := ret.Contents();
      var n: nat := ret.Get(i) as nat * 256 + carry;
      var w: u8 := n % 58;
      MulAddedStep(58, before, orig, i, carry, 256, d, n, w);
      ret.Set(i, w);
      carry := n / 58;
      i := i + 1;
    }
    MulAddedDone(58, ret.Contents(), orig, carry, 256, d);
  }

  /** One byte of the outer loop. */
  method Absorb(ret: SmallVec, d: u8)
    requires ret.Valid() && Normal(ret.Contents())
    modifies ret, ret.stack
    ensures ret.Valid() && Normal(ret.Contents())
    ensures ValueLe(58, ret.Contents()) == 256 * ValueLe(58, old(ret.Contents())) + d
  {
    hide ValueLe, Pow, SmallVec.Contents;
    ghost var orig: seq<nat> := ret.Contents();
    ghost var total: nat := 256 * ValueLe(58, orig) + d;
    var carry := MultiplyIn(ret, d);
    if carry == 0 {
      StaysNormal(ret.Contents(), orig);
    }
    while carry > 0
      invariant ret.Valid() && Digits(58, ret.Contents()) && 0 <= carry
      invariant ValueLe(58, ret.Contents()) + carry * Pow(58, |ret.Contents()|) == total
      invariant carry == 0 ==> Normal(ret.Contents())
    {
      var x: u8 := carry % 58;
      PushStep(ret.Contents(), carry, x, carry / 58, total);
      ret.Push(x);
      carry := carry / 58;
    }
  }

  lemma BytesSnoc(data: Bytes, k: nat)
    requires k < |data|
    ensures Value(256, data[..k + 1]) == 256 * Value(256, data[..k]) + data[k]
  {
    assert data[..k + 1][..k] == data[..k];
  }

  /** The digits built, reversed, are the canonical base-58 digits of the input. */
  lemma Reversed(s: seq<nat>, data: Bytes, zeros: nat)
    requires Normal(s) && ValueLe(58, s) == Value(256, data) && zeros == LeadingZeros(data)
    ensures Rev(s + Zeros(zeros)) == EncodedDigits(data)
  {
    CanonicalUnique(58, Rev(s), ToDigits(58, Value(256, data)));
    assert Rev(s + Zeros(zeros)) == Zeros(zeros) + Rev(s);
  }

  /** `format_iter`. */
  method FormatIter(data: Bytes) returns (text: Bytes)
    ensures text == Encoded(data)
  {
    hide Value, ValueLe, SmallVec.Contents;
    var ret := new SmallVec();
    var leadingZeroCount: nat := 0;
    var leadingZeroes := true;
    NothingYet(data[..0]);
    for k := 0 to |data|
      invariant ret.Valid() && Normal(ret.Contents()) && fresh(ret) && fresh(ret.stack)
      invariant ValueLe(58, ret.Contents()) == Value(256, data[..k])
      invariant leadingZeroCount <= k && forall i :: 0 <= i < leadingZeroCount ==> data[i] == 0
      invariant if leadingZeroes then leadingZeroCount == k else leadingZeroCount < k && data[leadingZeroCount] != 0
    {
      if leadingZeroes && data[k] == 0 {
        leadingZeroCount := leadingZeroCount + 1;
      } else {
        leadingZeroes := false;
      }
      BytesSnoc(data, k);
      Absorb(ret, data[k]);
    }
    assert data[..|data|] == data;
    ghost var digits: seq<nat> := ret.Contents();
    for i := 0 to leadingZeroCount
      invariant ret.Valid() && fresh(ret) && fresh(ret.stack)
      invariant ret.Contents() == digits + Zeros(i)
    {
      ret.Push(0);
    }
    Reversed(digits, data, leadingZeroCount);
    text := ReadBackwards(ret);
  }

  lemma NothingYet(t: Bytes)
    requires t == []
    ensures ValueLe(58, []) == Value(256, t) == 0
  {
  }

  /** The last loop: characters from the top digit down. */
  method ReadBackwards(ret: SmallVec) returns (text: Bytes)
    requires ret.Valid() && Digits(58, ret.Contents())
    ensures text == ToText(Rev(ret.Contents()))
  {
    hide SmallVec.Contents;
    text := [];
    var i := ret.Size();
    ghost var digits := Rev(ret.Contents());
    while i > 0
      invariant 0 <= i <= ret.Size() && |text| == ret.Size() - i
      invariant forall j :: 0 <= j < |text| ==> text[j] == CharOf(digits[j])
    {
      i := i - 1;
      text := text + [CharOf(ret.Get(i))];
    }
  }
}
