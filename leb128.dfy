/** Variable-length integers as section 5.2.2 of the WebAssembly Core
    Specification 1.0 defines them (LEB128): seven value bits per byte, least
    significant group first, the high bit set on every byte but the last. The
    signed form sign-extends from bit 6 of the last byte. Fixed-width
    little-endian patterns (the immediates of f32.const and f64.const, section
    5.2.3) are here too. */
module Leb128 {
  import opened Wasm

  /** 128 to the power `k`: the first value that needs more than `k` bytes. */
  function Pow128(k: nat): (r: nat)
    ensures r >= 1
  {
    if k == 0 then 1 else 0x80 * Pow128(k - 1)
  }

  // ---------------------------------------------------------------------------
  // Unsigned

  function EncodeUnsigned(n: nat): (r: seq<byte>)
    ensures 1 <= |r|
    ensures forall k :: 0 <= k < |r| - 1 ==> r[k] >= 0x80
    ensures r[|r| - 1] < 0x80
    decreases n
  {
    if n < 0x80 then [n as byte] else [(n % 0x80 + 0x80) as byte] + EncodeUnsigned(n / 0x80)
  }

  /** The value of the unsigned LEB128 number at the front of `s` and the
      number of bytes it takes, or None when no byte ends it. */
  function DecodeUnsigned(s: seq<byte>): (r: Option<(nat, nat)>)
    ensures r.Some? ==> 1 <= r.value.1 <= |s|
  {
    if |s| == 0 then None
    else if s[0] < 0x80 then Some((s[0] as nat, 1))
    else
      match DecodeUnsigned(s[1..])
      case None => None
      case Some((v, k)) => Some(((s[0] - 0x80) as nat + 0x80 * v, k + 1))
  }

  lemma {:induction false} UnsignedRoundTrip(n: nat, rest: seq<byte>)
    ensures DecodeUnsigned(EncodeUnsigned(n) + rest) == Some((n, |EncodeUnsigned(n)|))
    decreases n
  {
    if n >= 0x80 {
      var s := EncodeUnsigned(n) + rest;
      assert s[1..] == EncodeUnsigned(n / 0x80) + rest;
      UnsignedRoundTrip(n / 0x80, rest);
    }
  }

  /** A value below 128^k takes at most k bytes. */
  lemma {:induction false} UnsignedLength(n: nat, k: nat)
    requires 1 <= k && n < Pow128(k)
    ensures |EncodeUnsigned(n)| <= k
    decreases k
  {
    if n >= 0x80 {
      assert k > 1;
      UnsignedLength(n / 0x80, k - 1);
    }
  }

  /** An unsigned 32-bit value takes at most ceil(32 / 7) = 5 bytes, the bound
      section 5.2.2 puts on u32. */
  lemma U32Length(n: nat)
    requires n < 0x1_0000_0000
    ensures |EncodeUnsigned(n)| <= 5
  {
    assert Pow128(5) == 0x8_0000_0000;
    UnsignedLength(n, 5);
  }

  // ---------------------------------------------------------------------------
  // Signed

  function Magnitude(v: int): nat
  {
    if v < 0 then -v else v
  }

  function EncodeSigned(v: int): (r: seq<byte>)
    ensures 1 <= |r|
    ensures forall k :: 0 <= k < |r| - 1 ==> r[k] >= 0x80
    ensures r[|r| - 1] < 0x80
    decreases Magnitude(v)
  {
    if -0x40 <= v < 0x40 then [(v % 0x80) as byte]
    else [(v % 0x80 + 0x80) as byte] + EncodeSigned(v / 0x80)
  }

  /** The value of the signed LEB128 number at the front of `s` and the number
      of bytes it takes, or None when no byte ends it. */
  function DecodeSigned(s: seq<byte>): (r: Option<(int, nat)>)
    ensures r.Some? ==> 1 <= r.value.1 <= |s|
  {
    if |s| == 0 then None
    else if s[0] < 0x80 then Some((if s[0] >= 0x40 then s[0] as int - 0x80 else s[0] as int, 1))
    else
      match DecodeSigned(s[1..])
      case None => None
      case Some((v, k)) => Some(((s[0] - 0x80) as int + 0x80 * v, k + 1))
  }

  lemma {:induction false} SignedRoundTrip(v: int, rest: seq<byte>)
    ensures DecodeSigned(EncodeSigned(v) + rest) == Some((v, |EncodeSigned(v)|))
    decreases Magnitude(v)
  {
    if !(-0x40 <= v < 0x40) {
      var s := EncodeSigned(v) + rest;
      assert s[1..] == EncodeSigned(v / 0x80) + rest;
      SignedRoundTrip(v / 0x80, rest);
    }
  }

  /** A value in [-64 * 128^(k-1), 64 * 128^(k-1)) takes at most k bytes. */
  lemma {:induction false} SignedLength(v: int, k: nat)
    requires 1 <= k && -0x40 * Pow128(k - 1) <= v < 0x40 * Pow128(k - 1)
    ensures |EncodeSigned(v)| <= k
    decreases k
  {
    if !(-0x40 <= v < 0x40) {
      assert k > 1;
      SignedLength(v / 0x80, k - 1);
    }
  }

  /** The bounds section 5.2.2 puts on s32 and s64: 5 and 10 bytes. */
  lemma S32Length(v: int32)
    ensures |EncodeSigned(v as int)| <= 5
  {
    assert Pow128(4) == 0x1000_0000;
    SignedLength(v as int, 5);
  }

  lemma S64Length(v: int64)
    ensures |EncodeSigned(v as int)| <= 10
  {
    assert Pow128(4) == 0x1000_0000;
    assert Pow128(9) == 0x8000_0000_0000_0000;
    SignedLength(v as int, 10);
  }

  // ---------------------------------------------------------------------------
  // Fixed width

  /** The `k` low bytes of `n`, least significant first. */
  function LittleEndian(n: nat, k: nat): (r: seq<byte>)
    ensures |r| == k
  {
    if k == 0 then [] else [(n % 0x100) as byte] + LittleEndian(n / 0x100, k - 1)
  }

  function FromLittleEndian(s: seq<byte>): nat
  {
    if |s| == 0 then 0 else s[0] as nat + 0x100 * FromLittleEndian(s[1..])
  }

  function Pow256(k: nat): (r: nat)
    ensures r >= 1
  {
    if k == 0 then 1 else 0x100 * Pow256(k - 1)
  }

  lemma {:induction false} LittleEndianRoundTrip(n: nat, k: nat)
    requires n < Pow256(k)
    ensures FromLittleEndian(LittleEndian(n, k)) == n
    decreases k
  {
    if k > 0 {
      LittleEndianRoundTrip(n / 0x100, k - 1);
      assert LittleEndian(n, k)[1..] == LittleEndian(n / 0x100, k - 1);
    }
  }

  lemma F32RoundTrip(bits: bv32)
    ensures FromLittleEndian(LittleEndian(bits as nat, 4)) == bits as nat
  {
    assert Pow256(4) == 0x1_0000_0000;
    LittleEndianRoundTrip(bits as nat, 4);
  }

  lemma F64RoundTrip(bits: bv64)
    ensures FromLittleEndian(LittleEndian(bits as nat, 8)) == bits as nat
  {
    assert Pow256(8) == 0x1_0000_0000_0000_0000;
    LittleEndianRoundTrip(bits as nat, 8);
  }
}
