/** Little-endian accessors over byte buffers. */
module Bytes {

  type byte = x: int | 0 <= x < 256

  const TWO_31 := 0x8000_0000
  const TWO_32 := 0x1_0000_0000
  const TWO_63 := 0x8000_0000_0000_0000

  predicate IsI32(v: int) { -TWO_31 <= v < TWO_31 }
  predicate IsI64(v: int) { -TWO_63 <= v < TWO_63 }

  /** The 32-bit two's complement value of an unsigned 32-bit word. */
  function Signed32(u: int): int {
    if u >= TWO_31 then u - TWO_32 else u
  }

  function Word(b0: byte, b1: byte, b2: byte, b3: byte): (u: nat)
    ensures u < TWO_32
  {
    b0 + 0x100 * b1 + 0x1_0000 * b2 + 0x100_0000 * b3
  }

  function U32At(s: seq<byte>, o: nat): (u: nat)
    requires o + 4 <= |s|
    ensures u < TWO_32
  {
    Word(s[o], s[o + 1], s[o + 2], s[o + 3])
  }

  function I32At(s: seq<byte>, o: nat): (v: int)
    requires o + 4 <= |s|
    ensures IsI32(v)
  {
    Signed32(U32At(s, o))
  }

  function I64At(s: seq<byte>, o: nat): (v: int)
    requires o + 8 <= |s|
    ensures IsI64(v)
  {
    U32At(s, o) + TWO_32 * I32At(s, o + 4)
  }

  function EncU32(u: nat): (bs: seq<byte>)
    requires u < TWO_32
    ensures |bs| == 4
    ensures U32At(bs, 0) == u
  {
    var u1 := u / 0x100;
    var u2 := u1 / 0x100;
    [u % 0x100, u1 % 0x100, u2 % 0x100, u2 / 0x100]
  }

  function EncI32(v: int): (bs: seq<byte>)
    requires IsI32(v)
    ensures |bs| == 4
    ensures I32At(bs, 0) == v
  {
    EncU32(if v < 0 then v + TWO_32 else v)
  }

  function EncI64(v: int): (bs: seq<byte>)
    requires IsI64(v)
    ensures |bs| == 8
    ensures I64At(bs, 0) == v
  {
    var lo, hi := EncU32(v % TWO_32), EncI32(v / TWO_32);
    assert U32At(lo + hi, 0) == U32At(lo, 0) && I32At(lo + hi, 4) == I32At(hi, 0);
    lo + hi
  }

  /** `s` with the bytes from `o` on overwritten by `bs`. */
  function Splice(s: seq<byte>, o: nat, bs: seq<byte>): (r: seq<byte>)
    requires o + |bs| <= |s|
    ensures |r| == |s|
    ensures forall k :: 0 <= k < |s| ==> r[k] == if o <= k < o + |bs| then bs[k - o] else s[k]
    ensures r[o..o + |bs|] == bs
  {
    s[..o] + bs + s[o + |bs|..]
  }

  /** Writing `b` behind where `a` goes and then `a` writes both. */
  lemma SpliceJoin(s: seq<byte>, o: nat, a: seq<byte>, b: seq<byte>)
    requires o + |a| + |b| <= |s|
    ensures Splice(Splice(s, o + |a|, b), o, a) == Splice(s, o, a + b)
  {}

  function Zeros(n: nat): (s: seq<byte>)
    ensures |s| == n && forall k :: 0 <= k < n ==> s[k] == 0
  {
    seq(n, _ => 0)
  }

  lemma ZeroI32(s: seq<byte>, o: nat)
    requires o + 4 <= |s| && forall k :: o <= k < o + 4 ==> s[k] == 0
    ensures I32At(s, o) == 0
  {}

  // Two word values agree exactly when their bytes do.
  lemma WordInjective(a0: byte, a1: byte, a2: byte, a3: byte, b0: byte, b1: byte, b2: byte, b3: byte)
    requires Word(a0, a1, a2, a3) == Word(b0, b1, b2, b3)
    ensures a0 == b0 && a1 == b1 && a2 == b2 && a3 == b3
  {
    DigitInjective(a0, a1 + 0x100 * (a2 + 0x100 * a3), b0, b1 + 0x100 * (b2 + 0x100 * b3));
    DigitInjective(a1, a2 + 0x100 * a3, b1, b2 + 0x100 * b3);
    DigitInjective(a2, a3, b2, b3);
  }

  lemma DigitInjective(d: byte, n: nat, d': byte, n': nat)
    requires d + 0x100 * n == d' + 0x100 * n'
    ensures d == d' && n == n'
  {}

  /** Storing back a loaded 64-bit word copies its eight bytes. */
  lemma ReencodeI64(s: seq<byte>, o: nat)
    requires o + 8 <= |s|
    ensures EncI64(I64At(s, o)) == s[o..o + 8]
  {
    var v := I64At(s, o);
    var lo, hi := U32At(s, o), I32At(s, o + 4);
    assert v % TWO_32 == lo && v / TWO_32 == hi;
    ReencodeU32(s, o);
    ReencodeU32(s, o + 4);
    assert s[o..o + 8] == s[o..o + 4] + s[o + 4..o + 8];
  }

  lemma ReencodeU32(s: seq<byte>, o: nat)
    requires o + 4 <= |s|
    ensures EncU32(U32At(s, o)) == s[o..o + 4]
    ensures EncI32(I32At(s, o)) == s[o..o + 4]
  {
    var e := EncU32(U32At(s, o));
    WordInjective(e[0], e[1], e[2], e[3], s[o], s[o + 1], s[o + 2], s[o + 3]);
  }

  function GetI32(a: array<byte>, o: nat): (v: int)
    requires o + 4 <= a.Length
    reads a
    ensures v == I32At(a[..], o)
  {
    Signed32(Word(a[o], a[o + 1], a[o + 2], a[o + 3]))
  }

  function GetI64(a: array<byte>, o: nat): (v: int)
    requires o + 8 <= a.Length
    reads a
    ensures v == I64At(a[..], o)
  {
    Word(a[o], a[o + 1], a[o + 2], a[o + 3]) + TWO_32 * GetI32(a, o + 4)
  }

  method PutBytes(a: array<byte>, o: nat, bs: seq<byte>)
    requires o + |bs| <= a.Length
    modifies a
    ensures a[..] == Splice(old(a[..]), o, bs)
  {
    forall k | 0 <= k < |bs| {
      a[o + k] := bs[k];
    }
    var r := Splice(old(a[..]), o, bs);
    assert forall k :: 0 <= k < a.Length ==> a[k] == r[k];
  }

  method PutI32(a: array<byte>, o: nat, v: int)
    requires o + 4 <= a.Length && IsI32(v)
    modifies a
    ensures a[..] == Splice(old(a[..]), o, EncI32(v))
  {
    PutBytes(a, o, EncI32(v));
  }

  method PutI64(a: array<byte>, o: nat, v: int)
    requires o + 8 <= a.Length && IsI64(v)
    modifies a
    ensures a[..] == Splice(old(a[..]), o, EncI64(v))
  {
    PutBytes(a, o, EncI64(v));
  }
}
