/** Sequences of cursor operations, and the invariant they all keep: the
    remaining bytes are always a suffix of the span the cursor was created
    over, and they never grow. */
module FdtTrace {
  import opened BigEndian
  import opened FdtCursor

  /** One call on the cursor. Observers (PeekU32, IsEmpty, Remaining) are
      included so that a trace can interleave them with reads. */
  datatype Op =
    | ReadU32
    | ReadU64
    | SkipBytes(n: nat)
    | TakeBytes(n: nat)
    | Peek
    | CheckEmpty
    | ReadRemaining
    | StripNops(nop: u32)

  /** The cursor after one operation. */
  function Apply(d: FdtData, op: Op): (r: FdtData)
    ensures IsSuffix(r.bytes, d.bytes)
    ensures op.Peek? || op.CheckEmpty? || op.ReadRemaining? ==> r == d
  {
    match op
    case ReadU32 => U32(d).next
    case ReadU64 => U64(d).next
    case SkipBytes(n) => Skip(d, n)
    case TakeBytes(n) => Take(d, n).next
    // PeekU32, IsEmpty and Remaining take the cursor by value and return no
    // new one: the caller keeps the cursor it had.
    case Peek => d
    case CheckEmpty => d
    case ReadRemaining => d
    case StripNops(nop) => SkipNops(d, nop)
  }

  /** The cursor after a whole sequence of operations, in order. */
  function Run(d: FdtData, ops: seq<Op>): (r: FdtData)
    ensures IsSuffix(r.bytes, d.bytes)
    decreases |ops|
  {
    if |ops| == 0 then d
    else
      var d' := Apply(d, ops[0]);
      var r := Run(d', ops[1..]);
      IsSuffixTransitive(r.bytes, d'.bytes, d.bytes);
      r
  }

  /** Whatever a caller does with a cursor made by New, what remains is a
      suffix of the span it was made over. */
  lemma RemainingIsSuffixOfOriginal(orig: seq<u8>, ops: seq<Op>)
    ensures IsSuffix(Remaining(Run(New(orig), ops)), orig)
  {
  }

  /** Running a + b is running a, then b. */
  lemma {:induction false} RunAppend(d: FdtData, a: seq<Op>, b: seq<Op>)
    ensures Run(d, a + b) == Run(Run(d, a), b)
    decreases |a|
  {
    if |a| > 0 {
      assert (a + b)[0] == a[0];
      assert (a + b)[1..] == a[1..] + b;
      RunAppend(Apply(d, a[0]), a[1..], b);
    } else {
      assert a + b == b;
    }
  }

  /** The remaining span never grows: after more operations of the same
      trace, what remains is a suffix of what remained earlier. */
  lemma RemainingNeverGrows(d: FdtData, ops: seq<Op>, i: nat, j: nat)
    requires i <= j <= |ops|
    ensures IsSuffix(Run(d, ops[..j]).bytes, Run(d, ops[..i]).bytes)
    ensures |Run(d, ops[..j]).bytes| <= |Run(d, ops[..i]).bytes|
  {
    assert ops[..j] == ops[..i] + ops[i..j];
    RunAppend(d, ops[..i], ops[i..j]);
  }
}
