/** Bytes and the big-endian readings of them that `math/big` gives. */
module Bytes {
  import opened IntegerMath

  type byte = b: int | 0 <= b < 256

  function Pow256(n: nat): (r: nat)
    ensures r > 0
  {
    if n == 0 then 1 else 256 * Pow256(n - 1)
  }

  /** `new(big.Int).SetBytes(s)`: the bytes read as a big-endian number. */
  function FromBytes(s: seq<byte>): (v: nat)
  {
    if s == [] then 0 else 256 * FromBytes(s[..|s| - 1]) + s[|s| - 1]
  }

  /** `n.Bytes()`: the shortest big-endian form, empty for zero. */
  function ToBytes(n: nat): (s: seq<byte>)
  {
    if n == 0 then [] else ToBytes(n / 256) + [n % 256]
  }

  function Zeros(n: nat): (s: seq<byte>)
    ensures |s| == n && forall i :: 0 <= i < n ==> s[i] == 0
  {
    seq(n, _ => 0)
  }

  /** `n.Bytes()` copied to the right end of a fresh buffer of `width` zero bytes. */
  function Padded(n: nat, width: nat): (s: seq<byte>)
    requires |ToBytes(n)| <= width
    ensures |s| == width
  {
    Zeros(width - |ToBytes(n)|) + ToBytes(n)
  }

  lemma {:induction false} FromBytesBound(s: seq<byte>)
    ensures FromBytes(s) < Pow256(|s|)
  {
    if s != [] { FromBytesBound(s[..|s| - 1]); }
  }

  /** Bytes put before others count Pow256 times as much. */
  lemma {:induction false} FromBytesAdd(high: seq<byte>, low: seq<byte>)
    ensures FromBytes(high + low) == FromBytes(high) * Pow256(|low|) + FromBytes(low)
  {
    var all := high + low;
    if low == [] {
      assert all == high;
    } else {
      var less := low[..|low| - 1];
      FromBytesAdd(high, less);
      assert all[..|all| - 1] == high + less && all[|all| - 1] == low[|low| - 1];
      assert FromBytes(all) == 256 * FromBytes(high + less) + low[|low| - 1];
      assert FromBytes(low) == 256 * FromBytes(less) + low[|low| - 1];
      assert Pow256(|low|) == 256 * Pow256(|less|);
      hide FromBytes, Pow256;
      ShiftDigits(FromBytes(high), Pow256(|less|));
    }
  }

  lemma ShiftDigits(h: nat, p: nat)
    ensures 256 * (h * p) == h * (256 * p)
  {}

  /** A number below 256^w needs at most w bytes. */
  lemma {:induction false} ToBytesLength(n: nat, w: nat)
    requires n < Pow256(w)
    ensures |ToBytes(n)| <= w
  {
    if n != 0 { ToBytesLength(n / 256, w - 1); }
  }

  lemma {:induction false} FromToBytes(n: nat)
    ensures FromBytes(ToBytes(n)) == n
  {
    if n != 0 {
      FromToBytes(n / 256);
      assert ToBytes(n)[..|ToBytes(n)| - 1] == ToBytes(n / 256);
    }
  }

  /** Leading zeros do not change the number. */
  lemma {:induction false} FromZeros(k: nat, s: seq<byte>)
    ensures FromBytes(Zeros(k) + s) == FromBytes(s)
  {
    var z := Zeros(k) + s;
    if s != [] {
      FromZeros(k, s[..|s| - 1]);
      assert z[..|z| - 1] == Zeros(k) + s[..|s| - 1];
    } else if k > 0 {
      FromZeros(k - 1, s);
      assert z[..|z| - 1] == Zeros(k - 1) + s;
    }
  }

  /** A padded number reads back as itself. */
  lemma FromPadded(n: nat, width: nat)
    requires n < Pow256(width)
    ensures |ToBytes(n)| <= width && |Padded(n, width)| == width
    ensures FromBytes(Padded(n, width)) == n
  {
    ToBytesLength(n, width);
    FromZeros(width - |ToBytes(n)|, ToBytes(n));
    FromToBytes(n);
  }

  lemma PaddedInjective(a: nat, b: nat, width: nat)
    requires a < Pow256(width) && b < Pow256(width)
    ensures |ToBytes(a)| <= width && |ToBytes(b)| <= width
    ensures Padded(a, width) == Padded(b, width) <==> a == b
  {
    FromPadded(a, width);
    FromPadded(b, width);
  }

  /** One followed by n zero bytes. */
  function OneAndZeros(n: nat): seq<byte> { [1] + seq(n, _ => 0) }

  /** 2^256, read from its bytes: the solver then treats it as a symbol, not as a number. */
  function WordBase(): (w: nat)
    ensures w > U64
  {
    WordBaseValue();
    FromBytes(OneAndZeros(32))
  }

  const WORD: nat := WordBase()

  lemma {:induction false} OneAndZerosValue(n: nat)
    ensures FromBytes(OneAndZeros(n)) == Pow256(n)
  {
    var s := OneAndZeros(n);
    if n == 0 {
      assert s == [1] && s[..0] == [];
    } else {
      OneAndZerosValue(n - 1);
      assert s[..|s| - 1] == OneAndZeros(n - 1);
    }
  }

  lemma WordBaseValue()
    ensures FromBytes(OneAndZeros(32))
         == 0x1_0000000000000000_0000000000000000_0000000000000000_0000000000000000
    ensures FromBytes(OneAndZeros(32)) == Pow256(32)
  {
    hide Pow256, FromBytes;
    OneAndZerosValue(32);
    Pow256Of32();
  }

  lemma Pow256Of32()
    ensures Pow256(32) == 0x1_0000000000000000_0000000000000000_0000000000000000_0000000000000000
  {
    Pow256Add(8, 8);
    Pow256Add(16, 16);
    assert Pow256(4) == 0x1_0000_0000;
    Pow256Add(4, 4);
  }

  lemma WordIsPower()
    ensures WORD == Pow256(32)
  {
    WordBaseValue();
  }

  /** A number below 2^256 fits one word. */
  lemma WordFits(n: nat)
    requires n < WORD
    ensures |ToBytes(n)| <= 32 && FromBytes(Padded(n, 32)) == n
  {
    WordIsPower();
    FromPadded(n, 32);
  }

  /** A number as one 32-byte word. */
  function Word(n: nat): (s: seq<byte>)
    requires n < WORD
    ensures |s| == 32 && FromBytes(s) == n
  {
    WordFits(n);
    Padded(n, 32)
  }

  lemma WordBound(s: seq<byte>)
    requires |s| == 32
    ensures FromBytes(s) < WORD
  {
    WordIsPower();
    FromBytesBound(s);
  }

  lemma {:induction false} Pow256Add(a: nat, b: nat)
    ensures Pow256(a + b) == Pow256(a) * Pow256(b)
  {
    if a != 0 { Pow256Add(a - 1, b); }
  }

  /** `copy(dst[at:], src)`, where the source fits. */
  method CopyInto(dst: array<byte>, at: nat, src: seq<byte>)
    requires at + |src| <= dst.Length
    modifies dst
    ensures dst[..] == old(dst[..at]) + src + old(dst[at + |src|..])
  {
    for i := 0 to |src|
      invariant dst[..at + i] == old(dst[..at]) + src[..i]
      invariant dst[at + i..] == old(dst[at + i..])
    {
      dst[at + i] := src[i];
      assert dst[..at + i + 1] == dst[..at + i] + [src[i]];
      assert dst[at + i + 1..] == old(dst[at + i..])[1..];
    }
    assert dst[..] == dst[..at + |src|] + dst[at + |src|..];
  }
}
