/**
  Integers of 8, 16, 32 and 64 bits in network order, appended, prepended and read back in any
  interleaving: the byte buffer behaves as a double-ended queue of the values themselves.
*/
module TypedValues {
  import opened ByteOrder
  import opened BufferModel

  datatype Typed = Typed(value: int, width: nat) {
    predicate Valid() {
      (width == 1 || width == 2 || width == 4 || width == 8) && Fits(value, width)
    }

    function Encoded(): (s: seq<Byte>)
      requires Valid()
      ensures |s| == width
    {
      Network(value, width)
    }
  }

  predicate AllValid(q: seq<Typed>) {
    forall i :: 0 <= i < |q| ==> q[i].Valid()
  }

  function EncodedAll(q: seq<Typed>): seq<Byte>
    requires AllValid(q)
  {
    if q == [] then [] else q[0].Encoded() + EncodedAll(q[1..])
  }

  /** The typed methods of the buffer; a read uses the width of the value at the front. */
  datatype TypedOp = Append(t: Typed) | Prepend(t: Typed) | Read

  function OnQueue(q: seq<Typed>, op: TypedOp): seq<Typed> {
    match op
    case Append(t) => q + [t]
    case Prepend(t) => [t] + q
    case Read => if q == [] then q else q[1..]
  }

  predicate TypedEnabled(b: Image, q: seq<Typed>, op: TypedOp) {
    match op
    case Append(t) => t.Valid()
    case Prepend(t) => t.Valid() && t.width <= b.read
    case Read => q != [] && q[0].width <= |b.content|
  }

  function OnImage(b: Image, q: seq<Typed>, op: TypedOp): Image
    requires TypedEnabled(b, q, op)
  {
    match op
    case Append(t) => Written(b, t.Encoded())
    case Prepend(t) => Prepended(b, t.Encoded())
    case Read => Skipped(b, q[0].width)
  }

  /** The value a read decodes from the front of the buffer. */
  function Decoded(b: Image, q: seq<Typed>, op: TypedOp): seq<int>
    requires TypedEnabled(b, q, op) && AllValid(q)
  {
    if op.Read? then [FromNetwork(b.content[..q[0].width])] else []
  }

  predicate TypedLegal(b: Image, q: seq<Typed>, ops: seq<TypedOp>)
    decreases |ops|
  {
    ops == [] || (TypedEnabled(b, q, ops[0])
                  && TypedLegal(OnImage(b, q, ops[0]), OnQueue(q, ops[0]), ops[1..]))
  }

  function TypedRun(b: Image, q: seq<Typed>, ops: seq<TypedOp>): Image
    requires TypedLegal(b, q, ops)
    decreases |ops|
  {
    if ops == [] then b else TypedRun(OnImage(b, q, ops[0]), OnQueue(q, ops[0]), ops[1..])
  }

  lemma {:induction false} OnQueueKeepsValid(b: Image, q: seq<Typed>, op: TypedOp)
    requires AllValid(q) && TypedEnabled(b, q, op)
    ensures AllValid(OnQueue(q, op))
  {
  }

  function AllDecoded(b: Image, q: seq<Typed>, ops: seq<TypedOp>): seq<int>
    requires AllValid(q) && TypedLegal(b, q, ops)
    decreases |ops|
  {
    if ops == [] then []
    else
      OnQueueKeepsValid(b, q, ops[0]);
      Decoded(b, q, ops[0]) + AllDecoded(OnImage(b, q, ops[0]), OnQueue(q, ops[0]), ops[1..])
  }

  /** What a double-ended queue of values would hand out. */
  function AllQueued(q: seq<Typed>, ops: seq<TypedOp>): seq<int>
    decreases |ops|
  {
    if ops == [] then []
    else
      (if ops[0].Read? && q != [] then [q[0].value] else [])
      + AllQueued(OnQueue(q, ops[0]), ops[1..])
  }

  function QueueAfter(q: seq<Typed>, ops: seq<TypedOp>): seq<Typed>
    decreases |ops|
  {
    if ops == [] then q else QueueAfter(OnQueue(q, ops[0]), ops[1..])
  }

  lemma {:induction false} EncodedAppend(q: seq<Typed>, t: Typed)
    requires AllValid(q) && t.Valid()
    ensures EncodedAll(q + [t]) == EncodedAll(q) + t.Encoded()
  {
    if q == [] {
      assert (q + [t])[1..] == [];
    } else {
      assert (q + [t])[1..] == q[1..] + [t];
      EncodedAppend(q[1..], t);
    }
  }

  lemma {:induction false} TypedStep(b: Image, q: seq<Typed>, op: TypedOp)
    requires b.Valid() && AllValid(q) && b.content == EncodedAll(q) && TypedEnabled(b, q, op)
    ensures OnImage(b, q, op).Valid() && AllValid(OnQueue(q, op))
    ensures OnImage(b, q, op).content == EncodedAll(OnQueue(q, op))
    ensures Decoded(b, q, op) == if op.Read? then [q[0].value] else []
  {
    match op
    case Append(t) =>
      ApplyRefinesQueue(b, Op.Write(t.Encoded()));
      EncodedAppend(q, t);
    case Prepend(t) =>
      ApplyRefinesQueue(b, Op.Prepend(t.Encoded()));
      assert ([t] + q)[1..] == q;
    case Read =>
      ApplyRefinesQueue(b, Op.Skip(q[0].width));
      assert b.content[..q[0].width] == q[0].Encoded();
      NetworkRoundTrip(q[0].value, q[0].width);
  }

  /**
    Every legal run of typed operations, across any growth, compaction and drain, hands out the
    values themselves: first in first out for appends, last in first out for prepends.
  */
  lemma {:induction false} TypedRunIsDeque(b: Image, q: seq<Typed>, ops: seq<TypedOp>)
    requires b.Valid() && AllValid(q) && b.content == EncodedAll(q) && TypedLegal(b, q, ops)
    ensures AllDecoded(b, q, ops) == AllQueued(q, ops)
    ensures AllValid(QueueAfter(q, ops))
    ensures TypedRun(b, q, ops).content == EncodedAll(QueueAfter(q, ops))
    decreases |ops|
  {
    hide OnImage, Decoded, EncodedAll, OnQueue;
    if ops != [] {
      TypedStep(b, q, ops[0]);
      TypedRunIsDeque(OnImage(b, q, ops[0]), OnQueue(q, ops[0]), ops[1..]);
    }
  }
}
