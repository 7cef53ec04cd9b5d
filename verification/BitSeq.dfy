/** Bit strings, most significant bit first. */
module BitSeq {
  import opened Arith
  import opened Words
  import opened Sequences

  /** x without its k low bits. */
  function High(x: nat, k: nat): nat {
    DivNonNeg(x, Pow2(k));
    x / Pow2(k)
  }

  /** The k low bits of x. */
  function Low(x: nat, k: nat): (r: nat)
    ensures r < Pow2(k)
  {
    x % Pow2(k)
  }

  lemma HighHigh(x: nat, j: nat, k: nat)
    ensures High(High(x, j), k) == High(x, j + k)
    ensures Low(High(x, j), k) == High(Low(x, j + k), j)
  {
    Pow2Add(j, k);
    DivDiv(x, Pow2(j), Pow2(k));
  }

  lemma HighLow(x: nat, k: nat)
    ensures x == High(x, k) * Pow2(k) + Low(x, k)
  {
    DivModOf(x, Pow2(k));
  }

  /** The n low bits of v. */
  function ToBits(v: nat, n: nat): (s: seq<bool>)
    ensures |s| == n
  {
    if n == 0 then [] else ToBits(v / 2, n - 1) + [v % 2 == 1]
  }

  function FromBits(s: seq<bool>): (v: nat)
    ensures v < Pow2(|s|)
  {
    if s == [] then 0 else 2 * FromBits(s[..|s| - 1]) + (if s[|s| - 1] then 1 else 0)
  }

  function BytesBits(bytes: seq<u8>): (s: seq<bool>)
    ensures |s| == 8 * |bytes|
  {
    if bytes == [] then [] else BytesBits(bytes[..|bytes| - 1]) + ToBits(bytes[|bytes| - 1], 8)
  }

  lemma {:induction false} ToBitsSplit(v: nat, m: nat, k: nat)
    ensures ToBits(v, m + k) == ToBits(High(v, k), m) + ToBits(v, k)
    decreases k
  {
    if k > 0 {
      ToBitsSplit(v / 2, m, k - 1);
      DivDiv(v, 2, Pow2(k - 1));
    }
  }

  lemma {:induction false} ToBitsLow(v: nat, k: nat)
    ensures ToBits(Low(v, k), k) == ToBits(v, k)
    decreases k
  {
    if k > 0 {
      var p := Pow2(k - 1);
      assert Pow2(k) == 2 * p;
      DivDiv(v, 2, p);
      ToBitsLow(v / 2, k - 1);
    }
  }

  /** Bits of a number put together from a high part and the low bits of another. */
  lemma ToBitsJoin(h: nat, m: nat, x: nat, k: nat, joined: nat)
    requires joined == h * Pow2(k) + Low(x, k)
    ensures ToBits(joined, m + k) == ToBits(h, m) + ToBits(x, k)
  {
    DivModUnique(joined, Pow2(k), h, Low(x, k));
    ToBitsSplit(joined, m, k);
    ToBitsLow(joined, k);
    ToBitsLow(x, k);
  }

  lemma {:induction false} FromToBits(v: nat, n: nat)
    ensures FromBits(ToBits(v, n)) == Low(v, n)
    decreases n
  {
    if n > 0 {
      var p := Pow2(n - 1);
      assert Pow2(n) == 2 * p;
      DivDiv(v, 2, p);
      FromToBits(v / 2, n - 1);
      assert ToBits(v, n)[..n - 1] == ToBits(v / 2, n - 1);
    }
  }

  lemma {:induction false} ToFromBits(s: seq<bool>)
    ensures ToBits(FromBits(s), |s|) == s
    decreases |s|
  {
    if s != [] {
      ToFromBits(s[..|s| - 1]);
    }
  }

  lemma {:induction false} FromBitsConcat(s: seq<bool>, t: seq<bool>)
    ensures FromBits(s + t) == FromBits(s) * Pow2(|t|) + FromBits(t)
    decreases |t|
  {
    if t == [] {
      assert s + t == s;
    } else {
      var t' := t[..|t| - 1];
      FromBitsConcat(s, t');
      assert (s + t)[..|s + t| - 1] == s + t';
      Doubled(FromBits(s), Pow2(|t'|), Pow2(|t|));
    }
  }

  lemma Doubled(v: nat, p: nat, q: nat)
    requires q == 2 * p
    ensures v * q == 2 * (v * p)
  {
  }

  lemma {:induction false} BytesBitsConcat(a: seq<u8>, b: seq<u8>)
    ensures BytesBits(a + b) == BytesBits(a) + BytesBits(b)
    decreases |b|
  {
    hide ToBits;
    if b == [] {
      assert a + b == a;
    } else {
      var b' := b[..|b| - 1];
      BytesBitsConcat(a, b');
      assert (a + b)[..|a + b| - 1] == a + b';
    }
  }

  lemma BytesBitsOne(b: u8)
    ensures BytesBits([b]) == ToBits(b, 8)
  {
    assert [b][..0] == [];
  }

  lemma Assoc(a: seq<bool>, b: seq<bool>, c: seq<bool>)
    ensures (a + b) + c == a + (b + c)
  {
  }

  lemma SplitAt(all: seq<bool>, a: seq<bool>, b: seq<bool>)
    requires all == a + b
    ensures all[..|a|] == a && all[|a|..] == b
  {
  }

  lemma {:induction false} OnesBits(n: nat)
    requires n <= 64
    ensures ToBits(MAX64 - 1, n) == Repeat(true, n)
  {
    AllOnes(n, 64);
    WordSizes();
  }

  lemma OddHalf(h: nat, x: nat)
    requires h > 0 && x == 2 * h - 1
    ensures x / 2 == h - 1 && x % 2 == 1
  {
  }

  lemma {:induction false} AllOnes(n: nat, k: nat)
    requires n <= k
    ensures ToBits(Pow2(k) - 1, n) == Repeat(true, n)
    decreases n
  {
    if n > 0 {
      var h := Pow2(k - 1);
      assert Pow2(k) == 2 * h;
      hide Pow2;
      AllOnes(n - 1, k - 1);
      OddHalf(h, Pow2(k) - 1);
      assert Repeat(true, n) == Repeat(true, n - 1) + [true];
    }
  }

  lemma {:induction false} ZeroBits(n: nat)
    ensures ToBits(0, n) == Repeat(false, n)
    decreases n
  {
    if n > 0 {
      ZeroBits(n - 1);
      assert Repeat(false, n) == Repeat(false, n - 1) + [false];
    }
  }
}
