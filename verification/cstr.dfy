/** A borrowed view of the bytes before the first NUL of a span: the form in
    which node names and property names are stored in a device tree blob. */
module CStrView {
  import opened Wrappers
  import opened BigEndian

  /** The view itself. It holds the bytes before the terminator, never the
      terminator or anything after it. */
  datatype CStr = CStr(bytes: seq<u8>)

  /** Index of the first zero byte of data, or None when there is none
      (the search an iterator's `position` performs). */
  function FirstZero(data: seq<u8>): (r: Option<nat>)
    ensures r.None? <==> (forall i | 0 <= i < |data| :: data[i] != 0)
    ensures r.Some? ==>
      && r.value < |data|
      && data[r.value] == 0
      && (forall j | 0 <= j < r.value :: data[j] != 0)
  {
    if |data| == 0 then None
    else if data[0] == 0 then Some(0)
    else
      match FirstZero(data[1..])
      case None => None
      case Some(i) => Some(i + 1)
  }

  /** Builds the view over everything before the first NUL of data; fails
      when data holds no NUL at all. */
  function New(data: seq<u8>): (r: Option<CStr>)
    ensures r.None? <==> 0 !in data
    ensures r.Some? ==>
      && |r.value.bytes| < |data|
      && data[|r.value.bytes|] == 0
      && r.value.bytes == data[..|r.value.bytes|]
      && 0 !in r.value.bytes
  {
    match FirstZero(data)
    case None => None
    case Some(end) => Some(CStr(data[..end]))
  }

  /** Number of bytes in the view; the terminator is not counted: in any
      span the view was built from, the byte at index Len is the first NUL. */
  function Len(c: CStr): (n: nat)
    ensures forall data | New(data) == Some(c) ::
      n < |data| && data[n] == 0 && FirstZero(data) == Some(n)
  {
    |c.bytes|
  }

  /** The view as text, or None when its bytes are not well-formed UTF-8.
      The UTF-8 check is the caller-supplied predicate isUtf8; the view
      itself is neither consumed nor changed. */
  function AsStr(c: CStr, isUtf8: seq<u8> -> bool): (r: Option<seq<u8>>)
    ensures r.Some? <==> isUtf8(c.bytes)
    ensures r.Some? ==> r.value == c.bytes
  {
    if isUtf8(c.bytes) then Some(c.bytes) else None
  }

  /** The length of a constructed view is the index of the first NUL, and the
      span is the view, the terminator, then whatever followed. */
  lemma NewLen(data: seq<u8>, c: CStr)
    requires New(data) == Some(c)
    ensures FirstZero(data) == Some(Len(c))
    ensures data == c.bytes + [0] + data[Len(c) + 1..]
  {
    SplitAtNul(data, |c.bytes|);
  }

  /** A span cut at a NUL: the bytes before it, the NUL, the bytes after. */
  lemma SplitAtNul(data: seq<u8>, n: nat)
    requires n < |data| && data[n] == 0
    ensures data == data[..n] + [0] + data[n + 1..]
  {
    assert data[n..] == [0] + data[n + 1..];
    assert data == data[..n] + data[n..];
  }

  /** Round trip: terminating a NUL-free string and appending anything gives
      a span whose view is exactly that string. */
  lemma NewRoundTrip(s: seq<u8>, rest: seq<u8>)
    requires 0 !in s
    ensures New(s + [0] + rest) == Some(CStr(s))
  {
    var data := s + [0] + rest;
    assert data[|s|] == 0;
    assert data[..|s|] == s;
  }

  /** [0x41, 0x42, 0x00, 0x43] reads as the two-byte view "AB"; [0x41, 0x42]
      has no terminator and reads as nothing. */
  lemma AbExample(isUtf8: seq<u8> -> bool)
    requires isUtf8([0x41, 0x42])
    ensures New([0x41, 0x42, 0x00, 0x43]).Some?
    ensures Len(New([0x41, 0x42, 0x00, 0x43]).value) == 2
    ensures AsStr(New([0x41, 0x42, 0x00, 0x43]).value, isUtf8) == Some([0x41, 0x42])
    ensures New([0x41, 0x42]).None?
  {
    assert [0x41, 0x42, 0x00, 0x43] == [0x41, 0x42] + [0] + [0x43];
    NewRoundTrip([0x41, 0x42], [0x43]);
  }
}
