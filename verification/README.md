# fdt parsing core, modelled in Dafny

This project models `src/parsing.rs` of the `fdt` crate. That file is the
zero-copy byte cursor used to read a Flattened Device Tree blob, whose
structure block is a sequence of big-endian 4-byte tokens (section 5.4 of the
Devicetree Specification). It has three parts:

- **Big-endian decoders** (`big_endian.dfy`, module `BigEndian`).
  `u32_from_be_byte_slice` and `u64_from_be_byte_slice` are total functions
  from a byte sequence to `Option<u32>` / `Option<u64>`. The u32 decoder
  is specified by the explicit most-significant-first digit sum of its first
  four bytes, and the u64 decoder as the high u32 times 2^32 plus the low
  u32. Round trips in both directions tie each decoder to the encoding `ToBe`
  (`U32ToBeBytes` / `U64ToBeBytes`).
- **`CStr`** (`cstr.dfy`, module `CStrView`). A view of the bytes before the
  first NUL of a span.
- **`FdtData`** (`fdt_data.dfy`, module `FdtCursor`). A cursor whose only
  state is the unread suffix of its input. It has strict reads (`U32`, `U64`,
  `Take`), a clamping `Skip`, a non-advancing `PeekU32`, `IsEmpty`,
  `Remaining`, and `SkipNops`, which strips padding tokens.
  `fdt_trace.dfy` (module `FdtTrace`) runs arbitrary sequences of these
  operations and proves that what remains is always a suffix of the span given
  to `New` and never grows.

`wrappers.dfy` holds the `Option` type that stands for Rust's `Option`.

Rust's `&mut self` methods become pure functions that return the cursor as
it is afterwards. `U32`, `U64` and `Take` return a `Step(value, next)` pair:
the value the Rust method returns, and the next cursor. `Skip` and
`SkipNops` return `()` in Rust, so here they return only the next cursor.
The `&self` observers (`Remaining`, `PeekU32`, `IsEmpty`) return no cursor
at all, so they cannot move the caller's. Bytes are integers in `0..256` (`u8`). `u32` and `u64`
are the integer ranges of those Rust types.

## Model

| member | source | states |
|---|---|---|
| CStrView.FirstZero | src/parsing.rs:10 | None exactly when no byte is zero; otherwise an index in range holding a zero, with no zero before it |
| CStrView.New | src/parsing.rs:9-12 | None exactly when the span has no zero byte; otherwise the view is the prefix ending just before a zero byte, and it contains no zero itself |
| CStrView.Len | src/parsing.rs:14-17 | for every span the view was built from, the length is the index of the first NUL, so the terminator is not counted (NewLen restates this from the span's side) |
| CStrView.NewLen | src/parsing.rs:14-17 | the length of a constructed view is the index of the first NUL (the terminator is not counted), and the span is the view, the NUL, then the rest |
| CStrView.NewRoundTrip | src/parsing.rs:9-12 | a NUL-free string, terminated and followed by anything, reads back as exactly that string |
| CStrView.AsStr | src/parsing.rs:19-21 | Some exactly when the UTF-8 check accepts the view's bytes, and then the text is those same bytes |
| CStrView.AbExample | src/parsing.rs:9-21 | [41 42 00 43] gives a view of length 2, and its text is "AB" under the assumption that the UTF-8 check accepts [41 42] (the lemma's requires); [41 42] gives no view |
| BigEndian.U32FromBeByteSlice | src/parsing.rs:24-26 | None exactly when fewer than 4 bytes; otherwise bytes 0..3 composed most significant first |
| BigEndian.U64FromBeByteSlice | src/parsing.rs:28-30 | None exactly when fewer than 8 bytes; otherwise the u32 of bytes 0..3 times 2^32 plus the u32 of bytes 4..7 |
| BigEndian.U32IgnoresTail | src/parsing.rs:24-26 | bytes after the fourth do not affect the u32 decoder |
| BigEndian.U64IgnoresTail | src/parsing.rs:28-30 | bytes after the eighth do not affect the u64 decoder |
| BigEndian.U32RoundTrip | src/parsing.rs:24-26 | decoding the big-endian encoding of v, followed by anything, yields v |
| BigEndian.U64RoundTrip | src/parsing.rs:28-30 | decoding the big-endian encoding of v, followed by anything, yields v |
| BigEndian.U32Decoded | src/parsing.rs:24-26 | a successful u32 decode of v means the input begins with exactly the encoding of v (the decoder is injective on 4-byte prefixes) |
| BigEndian.U64Decoded | src/parsing.rs:28-30 | a successful u64 decode of v means the input begins with exactly the encoding of v |
| FdtCursor.New | src/parsing.rs:38-40 | the new cursor's remaining bytes are the whole span |
| FdtCursor.Remaining | src/parsing.rs:60-62 | a fresh cursor over the returned bytes is the same cursor; together with New and FdtTrace.RemainingIsSuffixOfOriginal, the bytes are an unread suffix of the original span |
| FdtCursor.Skip | src/parsing.rs:56-58 | never fails; the result is a suffix of the old remaining bytes, of length old minus n, or 0 when n exceeds it |
| FdtCursor.U32 | src/parsing.rs:42-47 | returns the decoder's value for the remaining bytes; on None the cursor is unchanged; on Some(v) the old remaining bytes are the encoding of v followed by the new ones |
| FdtCursor.U64 | src/parsing.rs:49-54 | as U32, with 8 bytes and the u64 decoder |
| FdtCursor.PeekU32 | src/parsing.rs:64-66 | equals the value U32 would return from the same cursor, and on success the next four bytes are its encoding; it returns no cursor, so the caller's does not move |
| FdtCursor.IsEmpty | src/parsing.rs:68-70 | true exactly when no bytes remain |
| FdtCursor.SkipNops | src/parsing.rs:72-76 | the result is a suffix of the input; the bytes consumed are whole NOP tokens; the next u32 afterwards is not NOP; if the first token is not NOP (or fewer than 4 bytes remain) the cursor is unchanged |
| FdtCursor.SkipNopsLoop | src/parsing.rs:72-76 | the while-let loop terminates (each pass consumes 4 bytes), leaves a suffix of the input, consumes only whole NOP tokens, and stops where the next u32 is not NOP; by SkipNopsStopsAtFirstOther this fixes the result |
| FdtCursor.SkipNopsStopsAtFirstOther | src/parsing.rs:72-76 | on a run of NOP tokens followed by bytes that do not begin with NOP, SkipNops stops exactly at those bytes (it strips the longest run, no more and no less) |
| FdtCursor.SkipNopsThree | src/parsing.rs:72-76 | three NOP tokens followed by a different token: all three are consumed and the cursor stands at the different token |
| FdtCursor.Take | src/parsing.rs:78-87 | Some exactly when n bytes remain; then it returns n bytes which, followed by the new remaining bytes, are the old ones; on None the cursor is unchanged |
| FdtCursor.EmptyReadsFail | src/parsing.rs:42-70 | on an empty cursor u32, u64, peek_u32 and take of a positive count fail without moving, and skip changes nothing |
| FdtCursor.U32IsTakeFour | src/parsing.rs:42-47 | reading a u32 succeeds exactly when taking 4 bytes does, leaves the cursor at the same place, and decodes the taken bytes |
| FdtCursor.SkipClampsTakeFails | src/parsing.rs:56-87 | past the end, skip leaves an empty cursor while take fails and leaves the cursor as it was |
| FdtCursor.ReadTakePeekScenario | src/parsing.rs:42-87 | over 00 00 00 09 48 49 00 AA: u32 gives 9 and leaves 4 bytes, take(2) gives 48 49 and leaves 2, then peek_u32 gives nothing and leaves the 2 bytes in place |
| FdtTrace.Apply | src/parsing.rs:42-87 | every cursor operation leaves a suffix of the bytes it started from; the observers leave the cursor as it was, which holds by construction because in Rust they take `&self` and here they return no cursor |
| FdtTrace.Run | src/parsing.rs:37-88 | any sequence of operations leaves a suffix of the starting bytes |
| FdtTrace.RemainingIsSuffixOfOriginal | src/parsing.rs:33-40 | after any operations on a cursor made by new, the remaining bytes are a suffix of the span given to new |
| FdtTrace.RemainingNeverGrows | src/parsing.rs:56-58 | along one trace, later remaining bytes are a suffix of earlier ones and never longer |

## Left out

- UTF-8 validation in `as_str` (src/parsing.rs:20) delegates to `core::str::from_utf8`, which is not part of this model. `CStrView.AsStr` takes the validity check as a parameter `isUtf8`. The text it returns is the view's own bytes, not decoded characters.
- The value of `crate::node::FDT_NOP` is defined in a file that is not part of this model. `SkipNops` takes it as a parameter `nop`.
- Lifetimes, borrowing and the `Debug`/`Clone`/`Copy` derivations (src/parsing.rs:32) concern memory ownership, not behaviour. Sequence values stand for the borrowed slices.
- The `try_into().unwrap()` calls (src/parsing.rs:25, 29) cannot fail: the `get(..4)?` / `get(..8)?` before them fixes the slice length. The model takes the first 4 or 8 bytes directly.
- Counts passed to `skip` and `take` are `usize` in the source and `nat` here. Every count larger than the remaining length behaves the same way in both (clamp or fail), so the `usize` bound changes nothing.
- Nothing is left out for failing reads: every failing read leaves the cursor unchanged. In `u32` and `u64` the `?` returns before `skip` runs, and `take` returns `None` without skipping. `U32`, `U64` and `Take` promise exactly this.
