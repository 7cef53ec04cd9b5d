/** The base58 decoder: a big-endian byte buffer multiplied by 58 in place. */
module Base58Decode {
  import opened Arith
  import opened Words
  import opened Radix
  import opened Base58

  /**
   A buffer of 1 + 11n/15 bytes holds every number of n base-58 digits: raised to the 15th
   power, 58^(15n) <= 256^(11n) < 256^(15 (1 + 11n/15)).
   */
  lemma ScratchSuffices(n: nat)
    ensures Pow(58, n) <= Pow(256, 1 + n * 11 / 15)
  {
    hide Pow;
    var k, l, m := 15, 11, 1 + n * 11 / 15;
    var x, y := Pow(58, n), Pow(256, m);
    FifteenDigits(k, l);
    PowMonoBase(Pow(58, k), Pow(256, l), n);
    PowPow(58, k, n);
    PowPow(256, l, n);
    PowPow(58, n, k);
    PowPow(256, m, k);
    PowMono(256, l * n, m * k);
    assert Pow(x, k) <= Pow(y, k);
    if y < x {
      PowMonoBase(y, x, k);
    }
  }

  lemma FifteenDigits(k: nat, m: nat)
    requires k == 15 && m == 11
    ensures Pow(58, k) <= Pow(256, m)
  {
    var a, c := 5, 3;
    assert Pow(58, a) == 656356768;
    PowAdd(58, a, a);
    PowAdd(58, 2 * a, a);
    assert Pow(256, c) == 0x100_0000;
    PowAdd(256, c, c);
    PowAdd(256, 2 * c, c);
    PowAdd(256, 3 * c, 2);
  }

  /** X = X * 58 + d on big-endian bytes, done for the digits from i on. */
  ghost predicate Shifting(ws: seq<nat>, orig: seq<nat>, i: nat, carry: nat, d: nat) {
    && i <= |ws| == |orig| && carry < 58
    && ws[..i] == orig[..i]
    && Value(256, ws[i..]) + carry * Pow(256, |ws| - i) == 58 * Value(256, orig[i..]) + d
  }

  lemma ShiftingStart(ws: seq<nat>, d: nat)
    requires d < 58
    ensures Shifting(ws, ws, |ws|, d, d)
  {
    assert ws[|ws|..] == [] && Pow(256, 0) == 1;
  }

  lemma ShiftingStep(ws: seq<nat>, orig: seq<nat>, i: nat, carry: nat, d: nat, n: nat, w: nat)
    requires i < |ws| && Shifting(ws, orig, i + 1, carry, d) && ws[i] < 256
    requires n == carry + ws[i] * 58 && w == n % 256
    ensures Shifting(ws[i := w], orig, i, n / 256, d)
  {
    hide Value, Pow;
    var ws' := ws[i := w];
    assert ws[i] == ws[..i + 1][i] == orig[..i + 1][i] == orig[i];
    assert ws'[..i] == ws[..i + 1][..i] == orig[..i + 1][..i] == orig[..i];
    assert ws'[i..] == [w] + ws[i + 1..] && orig[i..] == [orig[i]] + orig[i + 1..];
    ValueCons(256, w, ws[i + 1..]);
    ValueCons(256, orig[i], orig[i + 1..]);
    var p := Pow(256, |ws| - (i + 1));
    PowSucc(256, |ws| - (i + 1));
    CarryStep(256, p, Value(256, ws[i + 1..]), Value(256, orig[i + 1..]), carry, ws[i], 58, d, n);
  }

  /** A result that fits leaves no carry. */
  lemma ShiftingDone(ws: seq<nat>, orig: seq<nat>, carry: nat, d: nat)
    requires Shifting(ws, orig, 0, carry, d) && 58 * Value(256, orig) + d < Pow(256, |ws|)
    ensures carry == 0 && Value(256, ws) == 58 * Value(256, orig) + d
  {
    hide Value, Pow;
    assert ws[0..] == ws && orig[0..] == orig;
    if carry > 0 {
      MulMono(1, carry, Pow(256, |ws|));
    }
  }

  /** The inner loop of `decode`: the assertion that no carry is left always holds. */
  method ShiftIn(scratch: array<u8>, d: nat)
    requires d < 58 && 58 * Value(256, scratch[..]) + d < Pow(256, scratch.Length)
    modifies scratch
    ensures Value(256, scratch[..]) == 58 * Value(256, old(scratch[..])) + d
  {
    hide Value, Pow;
    var carry := d;
    ghost var orig := scratch[..];
    ShiftingStart(orig, d);
    var i := scratch.Length;
    while i > 0
      invariant 0 <= i <= scratch.Length && 0 <= carry
      invariant Shifting(scratch[..], orig, i, carry, d)
    {
      i := i - 1;
      ghost var before := scratch[..];
      var n: nat := carry + scratch[i] as nat * 58;
      var w: u8 := n % 256;
      ShiftingStep(before, orig, i, carry, d, n, w);
      scratch[i] := w;
      carry := n / 256;
      assert scratch[..] == before[i := w];
    }
    ShiftingDone(scratch[..], orig, carry, d);
    assert carry == 0;
  }

  lemma TextSnoc(t: Bytes, k: nat)
    requires k < |t| && ValidText(t[..k]) && DigitOf(t[k]).Some?
    ensures ValidText(t[..k + 1])
    ensures FromText(t[..k + 1]) == FromText(t[..k]) + [DigitOf(t[k]).value]
    ensures Value(58, FromText(t[..k + 1])) == 58 * Value(58, FromText(t[..k])) + DigitOf(t[k]).value
    ensures Value(58, FromText(t[..k + 1])) < Pow(58, k + 1)
  {
    var a, b := FromText(t[..k]), DigitOf(t[k]).value;
    assert t[..k + 1] == t[..k] + [t[k]];
    var c := FromText(t[..k + 1]);
    assert c == a + [b] && c[..k] == a;
    ValueBound(58, c);
  }

  /** `take_while` on the leading characters of digit zero. */
  method LeadingOnes(data: Bytes) returns (ret: Bytes)
    requires ValidText(data)
    ensures ret == Zeros(LeadingZeros(FromText(data)))
  {
    ret := [];
    ghost var digits := FromText(data);
    var i := 0;
    while i < |data| && data[i] == CharOf(0)
      invariant 0 <= i <= |data| && ret == Zeros(i)
      invariant forall j :: 0 <= j < i ==> digits[j] == 0
    {
      TablesAgree(0, data[i]);
      ret := ret + [0];
      i := i + 1;
    }
    if i < |data| {
      TablesAgree(0, data[i]);
    }
  }

  /** `skip_while` on zero bytes. */
  method SkipZeros(s: Bytes) returns (ret: Bytes)
    ensures ret == s[LeadingZeros(s)..]
  {
    var i := 0;
    while i < |s| && s[i] == 0
      invariant 0 <= i <= |s| && forall j :: 0 <= j < i ==> s[j] == 0
    {
      i := i + 1;
    }
    ret := s[i..];
  }

  /** `decode`. */
  method Decode(data: Bytes) returns (r: Result<Bytes, Error>)
    ensures r == Decoded(data)
  {
    hide Value, Pow;
    var scratch := new u8[1 + |data| * 11 / 15](_ => 0);
    assert scratch[..] == Zeros(scratch.Length);
    ZerosValue(256, scratch.Length);
    ScratchSuffices(|data|);
    EmptyText(data[..0]);
    for k := 0 to |data|
      invariant ValidText(data[..k])
      invariant Value(256, scratch[..]) == Value(58, FromText(data[..k]))
    {
      var d := DigitOf(data[k]);
      if d.None? {
        FirstBadAt(data, k);
        return Err(BadByte(data[k]));
      }
      TablesAgree(0, data[k]);
      TextSnoc(data, k);
      PowMono(58, k + 1, |data|);
      ShiftIn(scratch, d.value);
    }
    assert data[..|data|] == data;
    var ret := LeadingOnes(data);
    var rest := SkipZeros(scratch[..]);
    StripIsCanonical(256, scratch[..]);
    r := Ok(ret + rest);
  }

  lemma EmptyText(t: Bytes)
    requires t == []
    ensures ValidText(t) && Value(58, FromText(t)) == 0
  {
  }
}
