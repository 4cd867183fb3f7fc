/** The cursor over a device tree blob. Its only state is the suffix of the
    input not yet consumed; every read either shortens that suffix or, on
    failure, leaves it as it was. */
module FdtCursor {
  import opened Wrappers
  import opened BigEndian

  /** The cursor: the remaining, unread bytes. */
  datatype FdtData = FdtData(bytes: seq<u8>)

  /** What an advancing operation returns: its result and the cursor after it. */
  datatype Step<T> = Step(value: T, next: FdtData)

  /** s is a (not necessarily proper) suffix of t. */
  predicate IsSuffix(s: seq<u8>, t: seq<u8>)
  {
    |s| <= |t| && t[|t| - |s|..] == s
  }

  lemma IsSuffixTransitive(a: seq<u8>, b: seq<u8>, c: seq<u8>)
    requires IsSuffix(a, b) && IsSuffix(b, c)
    ensures IsSuffix(a, c)
  {
    assert c[|c| - |a|..] == c[|c| - |b|..][|b| - |a|..];
  }

  /** s is a whole number of padding tokens, each the four-byte big-endian
      encoding of nop. */
  predicate IsNopRun(nop: u32, s: seq<u8>)
    decreases |s|
  {
    |s| == 0 || (|s| >= 4 && s[..4] == U32ToBeBytes(nop) && IsNopRun(nop, s[4..]))
  }

  /** A run of padding tokens stays one when a token is added at its end. */
  lemma {:induction false} NopRunSnoc(nop: u32, s: seq<u8>)
    requires IsNopRun(nop, s)
    ensures IsNopRun(nop, s + U32ToBeBytes(nop))
  {
    if |s| > 0 {
      assert (s + U32ToBeBytes(nop))[..4] == s[..4];
      assert (s + U32ToBeBytes(nop))[4..] == s[4..] + U32ToBeBytes(nop);
      NopRunSnoc(nop, s[4..]);
    } else {
      assert s + U32ToBeBytes(nop) == U32ToBeBytes(nop);
      assert U32ToBeBytes(nop)[4..] == [];
    }
  }

  /** A cursor over the whole of bytes. */
  function New(bytes: seq<u8>): (r: FdtData)
    ensures Remaining(r) == bytes
  {
    FdtData(bytes)
  }

  /** The unread bytes, without consuming them. A fresh cursor over them is
      the same cursor (what New builds), which is what lets PeekU32 read
      ahead on a copy. */
  function Remaining(d: FdtData): (r: seq<u8>)
    ensures FdtData(r) == d
  {
    d.bytes
  }

  /** Drops n bytes from the front; when fewer than n remain the cursor
      becomes empty. It never fails. */
  function Skip(d: FdtData, n: nat): (r: FdtData)
    ensures IsSuffix(r.bytes, d.bytes)
    ensures |r.bytes| == if n <= |d.bytes| then |d.bytes| - n else 0
  {
    if n <= |d.bytes| then FdtData(d.bytes[n..]) else FdtData([])
  }

  /** Reads a big-endian u32 and advances past it; with fewer than four bytes
      left it fails and does not advance. */
  function U32(d: FdtData): (r: Step<Option<u32>>)
    ensures r.value == U32FromBeByteSlice(d.bytes)
    ensures r.value.None? ==> r.next == d
    ensures r.value.Some? ==> d.bytes == U32ToBeBytes(r.value.value) + r.next.bytes
  {
    match U32FromBeByteSlice(d.bytes)
    case None => Step(None, d)
    case Some(v) =>
      U32Decoded(d.bytes, v);
      Step(Some(v), Skip(d, 4))
  }

  /** Reads a big-endian u64 and advances past it; with fewer than eight
      bytes left it fails and does not advance. */
  function U64(d: FdtData): (r: Step<Option<u64>>)
    ensures r.value == U64FromBeByteSlice(d.bytes)
    ensures r.value.None? ==> r.next == d
    ensures r.value.Some? ==> d.bytes == U64ToBeBytes(r.value.value) + r.next.bytes
  {
    match U64FromBeByteSlice(d.bytes)
    case None => Step(None, d)
    case Some(v) =>
      U64Decoded(d.bytes, v);
      Step(Some(v), Skip(d, 8))
  }

  /** The next u32, read through a throw-away cursor over the same bytes, so
      the caller's cursor does not move. */
  function PeekU32(d: FdtData): (r: Option<u32>)
    ensures r == U32(d).value
    ensures r.Some? ==> d.bytes[..4] == U32ToBeBytes(r.value)
  {
    U32(New(Remaining(d))).value
  }

  /** Nothing is left to read. */
  function IsEmpty(d: FdtData): (r: bool)
    ensures r <==> |d.bytes| == 0
  {
    Remaining(d) == []
  }

  /** The bytes of d that come before its suffix r. */
  function Consumed(d: FdtData, r: FdtData): seq<u8>
    requires |r.bytes| <= |d.bytes|
  {
    d.bytes[..|d.bytes| - |r.bytes|]
  }

  /** Strips leading padding tokens: while the next u32 is nop, reads it. */
  function SkipNops(d: FdtData, nop: u32): (r: FdtData)
    ensures IsSuffix(r.bytes, d.bytes)
    ensures IsNopRun(nop, Consumed(d, r))
    ensures PeekU32(r) != Some(nop)
    ensures PeekU32(d) != Some(nop) ==> r == d
    decreases |d.bytes|
  {
    if PeekU32(d) == Some(nop) then
      var next := U32(d).next;
      var r := SkipNops(next, nop);
      ConsumedCons(nop, d, next, r);
      r
    else
      d
  }

  /** Reading one padding token in front of a run of them gives a longer run. */
  lemma ConsumedCons(nop: u32, d: FdtData, next: FdtData, r: FdtData)
    requires d.bytes == U32ToBeBytes(nop) + next.bytes
    requires IsSuffix(r.bytes, next.bytes)
    requires IsNopRun(nop, Consumed(next, r))
    ensures IsSuffix(r.bytes, d.bytes)
    ensures IsNopRun(nop, Consumed(d, r))
  {
    IsSuffixTransitive(r.bytes, next.bytes, d.bytes);
    var c := Consumed(d, r);
    assert c[..4] == U32ToBeBytes(nop);
    assert c[4..] == Consumed(next, r);
  }

  /** Reading one padding token after a run of them gives a longer run. */
  lemma ConsumedSnoc(nop: u32, d: FdtData, r: FdtData, next: FdtData)
    requires IsSuffix(r.bytes, d.bytes)
    requires IsNopRun(nop, Consumed(d, r))
    requires r.bytes == U32ToBeBytes(nop) + next.bytes
    ensures IsSuffix(next.bytes, d.bytes)
    ensures IsNopRun(nop, Consumed(d, next))
  {
    var c := Consumed(d, r);
    assert d.bytes == c + r.bytes;
    assert Consumed(d, next) == c + U32ToBeBytes(nop);
    NopRunSnoc(nop, c);
    assert d.bytes[|d.bytes| - |next.bytes|..] == next.bytes;
  }

  /** skip_nops as the loop it is written as. By SkipNopsStopsAtFirstOther
      below, its three postconditions determine r, so it ends where SkipNops
      does. */
  method SkipNopsLoop(d: FdtData, nop: u32) returns (r: FdtData)
    ensures IsSuffix(r.bytes, d.bytes)
    ensures IsNopRun(nop, Consumed(d, r))
    ensures PeekU32(r) != Some(nop)
  {
    r := d;
    assert Consumed(d, r) == [];
    while PeekU32(r) == Some(nop)
      invariant IsSuffix(r.bytes, d.bytes)
      invariant IsNopRun(nop, Consumed(d, r))
      decreases |r.bytes|
    {
      var step := U32(r);
      ConsumedSnoc(nop, d, r, step.next);
      r := step.next;
    }
  }

  /** Takes the first n bytes and advances past them; when fewer than n remain
      it fails and does not advance (unlike Skip). */
  function Take(d: FdtData, n: nat): (r: Step<Option<seq<u8>>>)
    ensures r.value.Some? <==> n <= |d.bytes|
    ensures r.value.None? ==> r.next == d
    ensures r.value.Some? ==> |r.value.value| == n && r.value.value + r.next.bytes == d.bytes
  {
    if |d.bytes| >= n then
      Step(Some(d.bytes[..n]), Skip(d, n))
    else
      Step(None, d)
  }

  /** SkipNops strips exactly the longest run of padding tokens: if the input
      is a run of padding tokens followed by s, and s does not begin with one,
      the cursor ends at s. */
  lemma {:induction false} SkipNopsStopsAtFirstOther(nop: u32, p: seq<u8>, s: seq<u8>)
    requires IsNopRun(nop, p)
    requires PeekU32(FdtData(s)) != Some(nop)
    ensures SkipNops(FdtData(p + s), nop) == FdtData(s)
    decreases |p|
  {
    if |p| == 0 {
      assert p + s == s;
    } else {
      var d := FdtData(p + s);
      assert p + s == U32ToBeBytes(nop) + (p[4..] + s);
      U32RoundTrip(nop, p[4..] + s);
      assert U32(d).next == FdtData(p[4..] + s);
      SkipNopsStopsAtFirstOther(nop, p[4..], s);
    }
  }

  /** Three padding tokens followed by a different token: all three are
      consumed and the cursor is left exactly at the different token. */
  lemma SkipNopsThree(nop: u32, token: u32, rest: seq<u8>)
    requires token != nop
    ensures SkipNops(FdtData(U32ToBeBytes(nop) + U32ToBeBytes(nop) + U32ToBeBytes(nop)
                             + U32ToBeBytes(token) + rest), nop)
            == FdtData(U32ToBeBytes(token) + rest)
  {
    var e := U32ToBeBytes(nop);
    var p := e + e + e;
    assert (e + e + e)[..4] == e && (e + e + e)[4..] == e + e;
    assert (e + e)[..4] == e && (e + e)[4..] == e;
    assert e[..4] == e && e[4..] == [];
    assert IsNopRun(nop, e);
    assert IsNopRun(nop, e + e);
    assert IsNopRun(nop, p);
    U32RoundTrip(token, rest);
    assert p + (U32ToBeBytes(token) + rest) == e + e + e + U32ToBeBytes(token) + rest;
    SkipNopsStopsAtFirstOther(nop, p, U32ToBeBytes(token) + rest);
  }

  /** On an exhausted cursor every read that needs bytes fails, and skipping
      changes nothing. */
  lemma EmptyReadsFail(d: FdtData, n: nat)
    requires IsEmpty(d)
    ensures U32(d) == Step(None, d)
    ensures U64(d) == Step(None, d)
    ensures PeekU32(d).None?
    ensures n > 0 ==> Take(d, n) == Step(None, d)
    ensures Skip(d, n) == d
  {
  }

  /** Reading a u32 is taking four bytes and decoding them: both succeed
      together and leave the cursor in the same place. */
  lemma U32IsTakeFour(d: FdtData)
    ensures U32(d).next == Take(d, 4).next
    ensures U32(d).value.Some? <==> Take(d, 4).value.Some?
    ensures Take(d, 4).value.Some? ==>
      U32(d).value == U32FromBeByteSlice(Take(d, 4).value.value)
  {
  }

  /** The two policies side by side: past the end, Skip empties the cursor
      while Take fails and keeps it. */
  lemma SkipClampsTakeFails(d: FdtData, n: nat)
    requires n > |d.bytes|
    ensures IsEmpty(Skip(d, n))
    ensures Take(d, n) == Step(None, d)
  {
  }

  /** The cursor over 00 00 00 09 48 49 00 AA: u32 reads 9 and leaves four
      bytes, take(2) returns 48 49 and leaves two, and peek_u32 then finds
      nothing and leaves both bytes in place. */
  lemma ReadTakePeekScenario()
    ensures var d0 := New([0x00, 0x00, 0x00, 0x09, 0x48, 0x49, 0x00, 0xAA]);
            var s1 := U32(d0);
            var s2 := Take(s1.next, 2);
            && s1.value == Some(9)
            && |Remaining(s1.next)| == 4
            && s2.value == Some([0x48, 0x49])
            && |Remaining(s2.next)| == 2
            && PeekU32(s2.next).None?
            && Remaining(s2.next) == [0x00, 0xAA]
  {
    var d0 := New([0x00, 0x00, 0x00, 0x09, 0x48, 0x49, 0x00, 0xAA]);
    assert U32(d0).value == Some(9);
    var d1 := U32(d0).next;
    assert d1.bytes == [0x48, 0x49, 0x00, 0xAA];
    assert d1.bytes[..2] == [0x48, 0x49];
    var d2 := Take(d1, 2).next;
    assert Take(d1, 2).value == Some([0x48, 0x49]);
    assert d2.bytes == [0x00, 0xAA];
  }
}
