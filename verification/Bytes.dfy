/** Big-endian codecs over byte sequences and their in-place counterparts over byte buffers
    (db/src/libchidb/util.h, util.c).  A shift right by 8k is a division by 256^k, a mask of the
    low bits is a remainder. */
module Bytes {
  type byte = x: int | 0 <= x < 256
  type u16 = x: int | 0 <= x < 0x1_0000
  type u32 = x: int | 0 <= x < 0x1_0000_0000
  type i32 = x: int | -0x8000_0000 <= x < 0x8000_0000

  const VARINT_LIMIT := 0x1000_0000  // 2^28: a varint carries four groups of seven bits

  function Enc2(v: u16): (b: seq<byte>)
    ensures |b| == 2
  {
    [v / 256, v % 256]
  }

  function Dec2(b: seq<byte>, i: nat): u16
    requires i + 2 <= |b|
  {
    (b[i] as int) * 256 + b[i + 1]
  }

  function Enc4(v: u32): (b: seq<byte>)
    ensures |b| == 4
  {
    [v / 0x100_0000, v / 0x1_0000 % 256, v / 256 % 256, v % 256]
  }

  function Dec4(b: seq<byte>, i: nat): u32
    requires i + 4 <= |b|
  {
    (b[i] as int) * 0x100_0000 + (b[i + 1] as int) * 0x1_0000 + (b[i + 2] as int) * 256 + b[i + 3]
  }

  /** Four bytes always, seven bits each, the first three marked with their top bit. */
  function EncVar(v: u32): (b: seq<byte>)
    ensures |b| == 4
  {
    [128 + v / 0x20_0000 % 128, 128 + v / 0x4000 % 128, 128 + v / 128 % 128, v % 128]
  }

  function DecVar(b: seq<byte>, i: nat): (v: u32)
    requires i + 4 <= |b|
    ensures v < VARINT_LIMIT
  {
    (b[i] as int) % 128 * 0x20_0000 + (b[i + 1] as int) % 128 * 0x4000 + (b[i + 2] as int) % 128 * 128 + b[i + 3] % 128
  }

  /** The most significant byte comes first. */
  lemma BigEndian(v: u32)
    ensures var b := Enc4(v);
            (b[0] as int) * 0x100_0000 + (b[1] as int) * 0x1_0000 + (b[2] as int) * 0x100 + b[3] == v
    ensures v < 0x1_0000 ==> var b := Enc2(v); (b[0] as int) * 0x100 + b[1] == v
  {
    assert v / 0x100 / 0x100 == v / 0x1_0000;
    assert v / 0x1_0000 / 0x100 == v / 0x100_0000;
  }

  /** The most significant group comes first, and all but the last one have their top bit set. */
  lemma GroupsInOrder(v: u32)
    ensures var b := EncVar(v);
            && b[0] >= 0x80 && b[1] >= 0x80 && b[2] >= 0x80 && b[3] < 0x80
            && (b[0] as int - 0x80) * 0x20_0000 + (b[1] as int - 0x80) * 0x4000 + (b[2] as int - 0x80) * 0x80 + b[3]
                == v % 0x1000_0000
  {
    SevenBitGroups(v);
  }

  lemma Dec2Enc2(v: u16)
    ensures Dec2(Enc2(v), 0) == v
  {
  }

  lemma Dec4Enc4(v: u32)
    ensures Dec4(Enc4(v), 0) == v
  {
    assert v / 256 / 256 == v / 0x1_0000;
    assert v / 0x1_0000 / 256 == v / 0x100_0000;
  }

  /** A varint keeps exactly the low 28 bits, so it is lossless if and only if the value is
      below 2^28. */
  lemma DecVarEncVar(v: u32)
    ensures DecVar(EncVar(v), 0) == v % VARINT_LIMIT
    ensures DecVar(EncVar(v), 0) == v <==> v < VARINT_LIMIT
  {
    SevenBitGroups(v);
    SmallRemainder(v);
    Marked(v / 0x20_0000);
    Marked(v / 0x4000);
    Marked(v / 128);
  }

  /** The mark on a group is masked off again. */
  lemma Marked(x: nat)
    ensures (128 + x % 128) % 128 == x % 128 && x % 128 % 128 == x % 128
  {
  }

  lemma SmallRemainder(v: nat)
    ensures v % VARINT_LIMIT == v <==> v < VARINT_LIMIT
  {
  }

  /** The codecs read only the four bytes at their position. */
  lemma DecLocal(b: seq<byte>, i: nat, w: seq<byte>)
    requires |w| == 4 && i + 4 <= |b| && b[i..i + 4] == w
    ensures Dec4(b, i) == Dec4(w, 0) && DecVar(b, i) == DecVar(w, 0)
  {
    var v := b[i..i + 4];
    assert b[i] == v[0] && b[i + 1] == v[1] && b[i + 2] == v[2] && b[i + 3] == v[3];
  }

  lemma SevenBitGroups(v: u32)
    ensures v % VARINT_LIMIT ==
        v / 0x20_0000 % 128 * 0x20_0000 + v / 0x4000 % 128 * 0x4000 + v / 128 % 128 * 128 + v % 128
  {
    var q1, q2, q3 := v / 128, v / 0x4000, v / 0x20_0000;
    assert q1 / 128 == q2;
    assert q2 / 128 == q3;
    assert v == q3 / 128 * VARINT_LIMIT + (q3 % 128 * 0x20_0000 + q2 % 128 * 0x4000 + q1 % 128 * 128 + v % 128);
  }

  /** bs written over s at position at. */
  function Splice(s: seq<byte>, at: nat, bs: seq<byte>): (r: seq<byte>)
    requires at + |bs| <= |s|
    ensures |r| == |s|
    ensures forall x :: 0 <= x < |s| ==> r[x] == if at <= x < at + |bs| then bs[x - at] else s[x]
  {
    seq(|s|, x requires 0 <= x < |s| => if at <= x < at + |bs| then bs[x - at] else s[x])
  }

  /** memcpy/memmove of the byte run bs to buf + at; the source run is taken before the write. */
  method Blit(buf: array<byte>, at: nat, bs: seq<byte>)
    requires at + |bs| <= buf.Length
    modifies buf
    ensures buf[..] == Splice(old(buf[..]), at, bs)
  {
    var i := 0;
    while i < |bs|
      invariant 0 <= i <= |bs|
      invariant buf[..] == Splice(old(buf[..]), at, bs[..i])
    {
      buf[at + i] := bs[i];
      i := i + 1;
    }
    assert bs[..i] == bs;
  }

  method Put2(buf: array<byte>, at: nat, v: u16)
    requires at + 2 <= buf.Length
    modifies buf
    ensures buf[..] == Splice(old(buf[..]), at, Enc2(v))
  {
    buf[at] := v / 256;
    buf[at + 1] := v % 256;
  }

  method Put4(buf: array<byte>, at: nat, v: u32)
    requires at + 4 <= buf.Length
    modifies buf
    ensures buf[..] == Splice(old(buf[..]), at, Enc4(v))
  {
    buf[at] := v / 0x100_0000;
    buf[at + 1] := v / 0x1_0000 % 256;
    buf[at + 2] := v / 256 % 256;
    buf[at + 3] := v % 256;
  }

  method PutVar(buf: array<byte>, at: nat, v: u32)
    requires at + 4 <= buf.Length
    modifies buf
    ensures buf[..] == Splice(old(buf[..]), at, EncVar(v))
  {
    buf[at + 3] := v % 128;
    buf[at + 2] := 128 + v / 128 % 128;
    buf[at + 1] := 128 + v / 0x4000 % 128;
    buf[at] := 128 + v / 0x20_0000 % 128;
  }
}
