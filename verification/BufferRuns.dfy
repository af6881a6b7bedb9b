/**
  Runs of operations performed on one Buffer object. The object follows BufferModel and
  TypedValues, so what those say of every run holds of the object: contents, bytes taken,
  capacity, and the bytes that its reallocations really copied.
*/
module BufferRuns {
  import opened ByteOrder
  import opened BufferModel
  import opened Buffers
  import T = TypedValues

  /** The bytes an Unread or a TakeIn names are the ones stored there. */
  predicate Stored(b: Buffer, op: Op)
    requires b.Valid()
    reads b, b.storage
  {
    match op
    case Unread(d) => |d| <= b.readIndex && b.storage[b.readIndex - |d|..b.readIndex] == d
    case TakeIn(d) => |d| <= b.WritableBytes() && b.storage[b.writeIndex..b.writeIndex + |d|] == d
    case _ => true
  }

  /** Operations that only move the indices, and the bytes they take off the front. */
  predicate MovesIndices(op: Op) {
    op.Skip? || op.Next? || op.ReadByte? || op.Truncate? || op.Unwrite? || op.Unread? || op.TakeIn?
  }

  method PerformMove(b: Buffer, op: Op) returns (taken: seq<Byte>)
    requires b.Valid() && MovesIndices(op) && Enabled(b.View(), op) && Stored(b, op)
    modifies b`readIndex, b`writeIndex
    ensures b.Valid() && b.View() == Apply(old(b.View()), op)
    ensures taken == Taken(old(b.Contents()), op)
  {
    hide Skipped, Truncated;
    taken := [];
    match op
    case Skip(n) =>
      taken := b.Contents()[..Min(n, b.Length())];
      b.Skip(n);
    case Next(n) =>
      taken := b.Next(n);
    case ReadByte =>
      var x := b.ReadByte();
      taken := [x];
    case Truncate(n) => b.Truncate(n);
    case Unwrite(n) => b.UnwriteBytes(n);
    case Unread(d) => b.UnreadBytes(|d|);
    case TakeIn(d) => b.WriteBytes(|d|);
  }

  method PerformStoring(b: Buffer, op: Op)
    requires b.Valid() && !MovesIndices(op) && Enabled(b.View(), op)
    modifies b, b.storage
    ensures b.Valid() && (b.storage == old(b.storage) || fresh(b.storage))
    ensures b.View() == Apply(old(b.View()), op)
    ensures b.copied == if op.Shrink? then 0 else old(b.copied + Copied(b.View(), op))
  {
    hide Written, Ensured, Reserved, Reallocates;
    match op
    case Write(d) => b.Write(d);
    case Prepend(d) => b.Prepend(d);
    case ToText => b.ToText();
    case EnsureWritable(n) => b.EnsureWritableBytes(n);
    case Reserve(n) => b.Reserve(n);
    case Shrink(n) => b.Shrink(n);
  }

  /** One operation: the next state, the bytes taken, and the bytes a reallocation copied. */
  method PerformOp(b: Buffer, op: Op) returns (taken: seq<Byte>)
    requires b.Valid() && Enabled(b.View(), op) && Stored(b, op)
    modifies b, b.storage
    ensures b.Valid() && (b.storage == old(b.storage) || fresh(b.storage))
    ensures b.View() == Apply(old(b.View()), op)
    ensures taken == Taken(old(b.Contents()), op)
    ensures b.copied == if op.Shrink? then 0 else old(b.copied + Copied(b.View(), op))
  {
    hide Apply;
    if MovesIndices(op) {
      taken := PerformMove(b, op);
    } else {
      taken := [];
      PerformStoring(b, op);
    }
  }

  /** Operations that do not depend on bytes outside the contents. */
  predicate Plain(ops: seq<Op>) {
    forall i :: 0 <= i < |ops| ==> !ops[i].Unread? && !ops[i].TakeIn?
  }

  predicate NoShrink(ops: seq<Op>) {
    forall i :: 0 <= i < |ops| ==> !ops[i].Shrink?
  }

  /**
    Performs operations up to the first whose assertion would fail, or that names bytes not
    stored; a legal run of plain operations is performed to the end.
  */
  method PerformAll(b: Buffer, ops: seq<Op>) returns (taken: seq<Byte>, done: nat)
    requires b.Valid()
    modifies b, b.storage
    ensures b.Valid() && (b.storage == old(b.storage) || fresh(b.storage))
    ensures done <= |ops| && Legal(old(b.View()), ops[..done])
    ensures b.View() == Run(old(b.View()), ops[..done])
    ensures taken == AllTaken(old(b.Contents()), ops[..done])
    ensures NoShrink(ops[..done]) ==> b.copied == old(b.copied) + AllCopied(old(b.View()), ops[..done])
    ensures done < |ops| ==> !(Enabled(b.View(), ops[done]) && Stored(b, ops[done]))
    ensures Plain(ops) && Legal(old(b.View()), ops) ==> done == |ops|
    decreases |ops|
  {
    hide Apply, Enabled, Copied, Taken, Queue;
    taken, done := [], 0;
    if ops != [] && Enabled(b.View(), ops[0]) && Stored(b, ops[0]) {
      ghost var before := b.View();
      ApplyRefinesQueue(before, ops[0]);
      var first := PerformOp(b, ops[0]);
      var rest, more := PerformAll(b, ops[1..]);
      taken, done := first + rest, more + 1;
      assert ops[..done][1..] == ops[1..][..more] && ops[..done][0] == ops[0];
      assert NoShrink(ops[..done]) ==> !ops[..done][0].Shrink? && NoShrink(ops[1..][..more]);
    } else {
      assert ops[..0] == [];
    }
  }

  /**
    The whole life of a buffer, from construction through any legal run: it holds what a queue
    would hold, its capacity and its copying are bounded, and as a stream it loses nothing. It
    remembers its reserve, and has all of it free in front whenever it has been drained.
  */
  method Live(initial: nat, reserved: nat, ops: seq<Op>) returns (b: Buffer, taken: seq<Byte>)
    requires Legal(Fresh(initial, reserved), ops) && Ordinary(ops) && Plain(ops)
    ensures fresh(b) && b.Valid() && fresh(b.storage)
    ensures b.Contents() == QueueRun([], ops)
    ensures var limit := Max(initial + reserved, 3 * Peak([], ops) + 2 * reserved);
            b.capacity <= limit && initial + reserved + b.copied <= b.capacity
    ensures StreamOps(ops) ==> taken + b.Contents() == AllAdded(ops)
    ensures b.reservedPrependSize == reserved
    ensures ops != [] && Drains(QueueRun([], ops[..|ops| - 1]), ops[|ops| - 1]) ==>
              b.PrependableBytes() == reserved && b.WritableBytes() == b.capacity - reserved
  {
    hide Legal, Run, QueueRun, Peak, AllAdded, AllTaken, AllCopied;
    b := new Buffer(initial, reserved);
    ghost var image := b.View();
    var done: nat;
    taken, done := PerformAll(b, ops);
    assert ops[..done] == ops;
    RunRefinesQueue(image, ops);
    MemoryBound(image, ops);
    CopyBound(image, ops);
    if ops != [] && Drains(QueueRun([], ops[..|ops| - 1]), ops[|ops| - 1]) {
      DrainRestoresReserve(image, ops);
    }
    if StreamOps(ops) {
      StreamConservation(image, ops);
      assert [] + AllAdded(ops) == AllAdded(ops);
    }
  }

  /** Next and then UnreadBytes, if its assertion allows it: when that restores the contents. */
  method TakeBack(b: Buffer, n: nat) returns (s: seq<Byte>, legal: bool)
    requires b.Valid()
    modifies b`readIndex, b`writeIndex
    ensures b.Valid()
    ensures legal && b.Contents() == old(b.Contents())
       <==> (var c := old(b.Contents());
             if n < |c| then old(b.readIndex) > 0
             else n == |c| && n < b.reservedPrependSize
                  && old(b.storage[..])[b.reservedPrependSize - n..b.reservedPrependSize] == c)
  {
    ghost var store, before := b.storage[..], b.View();
    TakeBackIff(store, before, n);
    s := b.Next(n);
    legal := n < b.readIndex;
    if legal {
      assert b.storage[b.readIndex - n..b.readIndex] == store[b.readIndex - n..b.readIndex];
      b.UnreadBytes(n);
    }
  }

  // ---------- typed values ----------

  method AppendTyped(b: Buffer, t: T.Typed)
    requires b.Valid() && t.Valid()
    modifies b, b.storage
    ensures b.Valid() && (b.storage == old(b.storage) || fresh(b.storage))
    ensures b.View() == Written(old(b.View()), t.Encoded())
  {
    hide Written, Network;
    Powers();
    if t.width == 8 {
      b.AppendInt64(t.value);
    } else if t.width == 4 {
      b.AppendInt32(t.value);
    } else if t.width == 2 {
      b.AppendInt16(t.value);
    } else {
      b.AppendInt8(t.value);
    }
  }

  method PrependTyped(b: Buffer, t: T.Typed)
    requires b.Valid() && t.Valid() && t.width <= b.PrependableBytes()
    modifies b`readIndex, b.storage
    ensures b.Valid()
    ensures b.View() == Prepended(old(b.View()), t.Encoded())
  {
    hide Network;
    Powers();
    if t.width == 8 {
      b.PrependInt64(t.value);
    } else if t.width == 4 {
      b.PrependInt32(t.value);
    } else if t.width == 2 {
      b.PrependInt16(t.value);
    } else {
      b.PrependInt8(t.value);
    }
  }

  method ReadTyped(b: Buffer, width: nat) returns (v: int)
    requires b.Valid() && width in {1, 2, 4, 8} && width <= b.Length()
    modifies b`readIndex, b`writeIndex
    ensures b.Valid()
    ensures b.View() == Skipped(old(b.View()), width)
    ensures v == FromNetwork(old(b.Contents())[..width])
  {
    hide Skipped, FromNetwork;
    if width == 8 {
      v := b.ReadInt64();
    } else if width == 4 {
      v := b.ReadInt32();
    } else if width == 2 {
      v := b.ReadInt16();
    } else {
      v := b.ReadInt8();
    }
  }

  /** One typed operation on a buffer that holds the encoded queue q. */
  method PerformTyped(b: Buffer, ghost q: seq<T.Typed>, op: T.TypedOp, width: nat) returns (values: seq<int>)
    requires b.Valid() && T.AllValid(q) && b.Contents() == T.EncodedAll(q)
    requires T.TypedEnabled(b.View(), q, op) && (op.Read? ==> width == q[0].width)
    modifies b, b.storage
    ensures b.Valid() && (b.storage == old(b.storage) || fresh(b.storage))
    ensures b.View() == T.OnImage(old(b.View()), q, op)
    ensures values == T.Decoded(old(b.View()), q, op)
  {
    hide Written, Skipped, FromNetwork, T.EncodedAll;
    values := [];
    match op
    case Append(t) => AppendTyped(b, t);
    case Prepend(t) => PrependTyped(b, t);
    case Read =>
      assert q[0].Valid();
      var v := ReadTyped(b, width);
      values := [v];
  }

  /** A legal run of typed operations on the object hands out what a queue of values would. */
  method PerformTypedAll(b: Buffer, q: seq<T.Typed>, ops: seq<T.TypedOp>) returns (values: seq<int>)
    requires b.Valid() && T.AllValid(q) && b.Contents() == T.EncodedAll(q)
    requires T.TypedLegal(b.View(), q, ops)
    modifies b, b.storage
    ensures b.Valid() && (b.storage == old(b.storage) || fresh(b.storage))
    ensures values == T.AllQueued(q, ops)
    ensures T.AllValid(T.QueueAfter(q, ops)) && b.Contents() == T.EncodedAll(T.QueueAfter(q, ops))
    decreases |ops|
  {
    hide T.OnImage, T.Decoded, T.EncodedAll, T.OnQueue;
    values := [];
    if ops != [] {
      T.TypedStep(b.View(), q, ops[0]);
      var first := PerformTyped(b, q, ops[0], if q == [] then 0 else q[0].width);
      var rest := PerformTypedAll(b, T.OnQueue(q, ops[0]), ops[1..]);
      values := first + rest;
    }
  }
}
