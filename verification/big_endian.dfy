/** Fixed-width big-endian decoding, as used for every token and header field
    of a Flattened Device Tree (section 5.4 of the Devicetree Specification
    stores all structure-block words most-significant byte first). */
module BigEndian {
  import opened Wrappers

  /** Rust's u8, u32 and u64, as bounded mathematical integers. */
  type u8 = x: int | 0 <= x < 0x100
  type u32 = x: int | 0 <= x < 0x1_0000_0000
  type u64 = x: int | 0 <= x < 0x1_0000_0000_0000_0000

  /** 256 to the power n: one more than the largest value of n bytes. */
  function Pow256(n: nat): (r: nat)
    ensures r > 0
  {
    if n == 0 then 1 else 0x100 * Pow256(n - 1)
  }

  /** Reference meaning of a byte string read most-significant byte first:
      every byte shifts what came before it one place (eight bits) up. */
  function BeValue(s: seq<u8>): nat
  {
    if |s| == 0 then 0 else BeValue(s[..|s| - 1]) * 0x100 + s[|s| - 1]
  }

  /** The n-byte big-endian encoding of v (v taken modulo 256^n). */
  function ToBe(v: nat, n: nat): (r: seq<u8>)
    ensures |r| == n
  {
    if n == 0 then [] else ToBe(v / 0x100, n - 1) + [v % 0x100]
  }

  /** n bytes never denote more than 256^n - 1. */
  lemma {:induction false} BeValueBound(s: seq<u8>)
    ensures BeValue(s) < Pow256(|s|)
  {
    if |s| > 0 {
      BeValueBound(s[..|s| - 1]);
    }
  }

  /** Decoding an encoding gives the value back. */
  lemma {:induction false} BeValueToBe(v: nat, n: nat)
    requires v < Pow256(n)
    ensures BeValue(ToBe(v, n)) == v
  {
    if n > 0 {
      var e := ToBe(v, n);
      assert e[..n - 1] == ToBe(v / 0x100, n - 1);
      assert e[n - 1] == v % 0x100;
      BeValueToBe(v / 0x100, n - 1);
    }
  }

  /** Encoding a decoded string at its own width gives the string back. */
  lemma {:induction false} ToBeBeValue(s: seq<u8>)
    ensures ToBe(BeValue(s), |s|) == s
  {
    if |s| > 0 {
      var p := s[..|s| - 1];
      assert BeValue(s) / 0x100 == BeValue(p);
      assert BeValue(s) % 0x100 == s[|s| - 1];
      ToBeBeValue(p);
      assert p + [s[|s| - 1]] == s;
    }
  }

  /** Splitting a big-endian string: the front part is the high-order digits. */
  lemma {:induction false} BeValueAppend(a: seq<u8>, b: seq<u8>)
    ensures BeValue(a + b) == BeValue(a) * Pow256(|b|) + BeValue(b)
  {
    if |b| == 0 {
      assert a + b == a;
    } else {
      var b' := b[..|b| - 1];
      assert (a + b)[..|a + b| - 1] == a + b';
      assert (a + b)[|a + b| - 1] == b[|b| - 1];
      BeValueAppend(a, b');
      calc {
        BeValue(a + b);
        BeValue(a + b') * 0x100 + b[|b| - 1];
        (BeValue(a) * Pow256(|b'|) + BeValue(b')) * 0x100 + b[|b| - 1];
        BeValue(a) * (Pow256(|b'|) * 0x100) + (BeValue(b') * 0x100 + b[|b| - 1]);
        BeValue(a) * Pow256(|b|) + BeValue(b);
      }
    }
  }

  /** A four-byte string, written out digit by digit. */
  lemma BeValue4(s: seq<u8>)
    requires |s| == 4
    ensures BeValue(s) == s[0] as int * 0x100_0000 + s[1] as int * 0x1_0000 + s[2] as int * 0x100 + s[3] as int
  {
    assert s[..3][..2] == s[..2] && s[..2][..1] == s[..1] && s[..1][..0] == [];
    assert BeValue(s[..1]) == s[0];
    assert BeValue(s[..2]) == s[0] as int * 0x100 + s[1] as int;
    assert BeValue(s[..3]) == s[0] as int * 0x1_0000 + s[1] as int * 0x100 + s[2] as int;
  }

  /** u32::from_be_bytes applied to the first four bytes, or None when there
      are fewer than four. */
  function U32FromBeByteSlice(bytes: seq<u8>): (r: Option<u32>)
    ensures r.None? <==> |bytes| < 4
    ensures r.Some? ==>
      r.value == bytes[0] as int * 0x100_0000 + bytes[1] as int * 0x1_0000
                 + bytes[2] as int * 0x100 + bytes[3] as int
  {
    if |bytes| < 4 then None
    else
      BeValueBound(bytes[..4]);
      BeValue4(bytes[..4]);
      Some(BeValue(bytes[..4]))
  }

  /** u64::from_be_bytes applied to the first eight bytes, or None when there
      are fewer than eight. */
  function U64FromBeByteSlice(bytes: seq<u8>): (r: Option<u64>)
    ensures r.None? <==> |bytes| < 8
    ensures r.Some? ==>
      r.value == U32FromBeByteSlice(bytes).value * 0x1_0000_0000
                 + U32FromBeByteSlice(bytes[4..]).value
  {
    if |bytes| < 8 then None
    else
      BeValueBound(bytes[..8]);
      assert bytes[..8] == bytes[..4] + bytes[4..][..4];
      BeValueAppend(bytes[..4], bytes[4..][..4]);
      BeValue4(bytes[..4]);
      BeValue4(bytes[4..][..4]);
      Some(BeValue(bytes[..8]))
  }

  /** The wire form of a u32: four bytes, most significant first. */
  function U32ToBeBytes(v: u32): (r: seq<u8>)
    ensures |r| == 4
  {
    ToBe(v, 4)
  }

  /** The wire form of a u64: eight bytes, most significant first. */
  function U64ToBeBytes(v: u64): (r: seq<u8>)
    ensures |r| == 8
  {
    ToBe(v, 8)
  }

  /** Only the first four bytes are read: anything after them is ignored. */
  lemma U32IgnoresTail(a: seq<u8>, b: seq<u8>)
    requires |a| >= 4
    ensures U32FromBeByteSlice(a + b) == U32FromBeByteSlice(a)
  {
    assert (a + b)[..4] == a[..4];
  }

  /** Only the first eight bytes are read: anything after them is ignored. */
  lemma U64IgnoresTail(a: seq<u8>, b: seq<u8>)
    requires |a| >= 8
    ensures U64FromBeByteSlice(a + b) == U64FromBeByteSlice(a)
  {
    assert (a + b)[..8] == a[..8];
  }

  /** Round trip: decoding the big-endian encoding of v, followed by anything,
      yields v. */
  lemma U32RoundTrip(v: u32, rest: seq<u8>)
    ensures U32FromBeByteSlice(U32ToBeBytes(v) + rest) == Some(v)
  {
    assert (U32ToBeBytes(v) + rest)[..4] == U32ToBeBytes(v);
    BeValueToBe(v, 4);
  }

  /** Round trip: decoding the big-endian encoding of v, followed by anything,
      yields v. */
  lemma U64RoundTrip(v: u64, rest: seq<u8>)
    ensures U64FromBeByteSlice(U64ToBeBytes(v) + rest) == Some(v)
  {
    assert (U64ToBeBytes(v) + rest)[..8] == U64ToBeBytes(v);
    BeValueToBe(v, 8);
  }

  /** The other direction: a successful decode of v means the input starts
      with exactly the encoding of v, so no two four-byte prefixes collide. */
  lemma U32Decoded(bytes: seq<u8>, v: u32)
    requires U32FromBeByteSlice(bytes) == Some(v)
    ensures bytes[..4] == U32ToBeBytes(v)
    ensures bytes == U32ToBeBytes(v) + bytes[4..]
  {
    ToBeBeValue(bytes[..4]);
    assert bytes == bytes[..4] + bytes[4..];
  }

  /** A successful decode of v means the input starts with exactly the
      encoding of v. */
  lemma U64Decoded(bytes: seq<u8>, v: u64)
    requires U64FromBeByteSlice(bytes) == Some(v)
    ensures bytes[..8] == U64ToBeBytes(v)
    ensures bytes == U64ToBeBytes(v) + bytes[8..]
  {
    ToBeBeValue(bytes[..8]);
    assert bytes == bytes[..8] + bytes[8..];
  }
}
