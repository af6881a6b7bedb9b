/**
  What the growable buffer of buffer.h does, as functions on its visible state, and two
  specifications it must meet: a plain double-ended queue of bytes, and bounds on memory and
  copying. Buffers.Buffer shows that each method moves the object from one image to the next.
*/
module BufferModel {
  import opened ByteOrder

  const CHEAP_PREPEND: nat := 8
  const INITIAL_SIZE: nat := 1024

  /** capacity_, reserved_prepend_size_, read_index_, and the bytes up to write_index_. */
  datatype Image = Image(capacity: nat, reserved: nat, read: nat, content: seq<Byte>) {

    predicate Valid() {
      read + |content| <= capacity && reserved <= capacity
    }

    function Writable(): int { capacity - read - |content| }
  }

  function Fresh(initial: nat, reserved: nat): (b: Image)
    ensures b.Valid() && b.Writable() == initial
  {
    Image(reserved + initial, reserved, reserved, [])
  }

  // ---------- the operations ----------

  function Emptied(b: Image): Image {
    b.(read := b.reserved, content := [])
  }

  function Skipped(b: Image, n: nat): Image {
    if n < |b.content| then b.(read := b.read + n, content := b.content[n..]) else Emptied(b)
  }

  function Truncated(b: Image, n: nat): Image {
    if n == 0 then Emptied(b)
    else if |b.content| > n then b.(content := b.content[..n])
    else b
  }

  /** The test of grow: the free space at both ends, less the reserve, is too small. */
  predicate Reallocates(b: Image, len: nat) {
    b.Writable() + b.read < len + b.reserved
  }

  function Grown(b: Image, len: nat): Image {
    if Reallocates(b, len) then Image(2 * b.capacity + len, b.reserved, b.reserved, b.content)
    else b.(read := b.reserved)
  }

  function Ensured(b: Image, len: nat): Image {
    if b.Writable() < len then Grown(b, len) else b
  }

  function Reserved(b: Image, len: nat): Image {
    if b.capacity >= len + b.reserved then b else Grown(b, len + b.reserved)
  }

  function Written(b: Image, d: seq<Byte>): Image {
    var e := Ensured(b, |d|);
    e.(content := e.content + d)
  }

  function Prepended(b: Image, d: seq<Byte>): Image
    requires |d| <= b.read
  {
    b.(read := b.read - |d|, content := d + b.content)
  }

  function TakenIn(b: Image, d: seq<Byte>): Image
    requires |d| <= b.Writable()
  {
    b.(content := b.content + d)
  }

  function Unwritten(b: Image, n: nat): Image
    requires n <= |b.content|
  {
    b.(content := b.content[..|b.content| - n])
  }

  function ByteRead(b: Image): Image
    requires |b.content| >= 1
  {
    b.(read := b.read + 1, content := b.content[1..])
  }

  /** A new buffer with the default reserve, swapped in. */
  function Shrunk(b: Image, reserve: nat): Image {
    Written(Fresh(|b.content| + reserve, CHEAP_PREPEND), b.content)
  }

  /**
    Unread and TakeIn carry the bytes that UnreadBytes and WriteBytes find stored before the read
    index and behind the write index.
  */
  datatype Op =
    | Write(d: seq<Byte>)
    | Prepend(d: seq<Byte>)
    | Skip(n: nat)
    | Next(n: nat)
    | ReadByte
    | Truncate(n: nat)
    | Unwrite(n: nat)
    | ToText
    | EnsureWritable(n: nat)
    | Reserve(n: nat)
    | Shrink(n: nat)
    | Unread(d: seq<Byte>)
    | TakeIn(d: seq<Byte>)

  /** The assertions the source makes of its callers. */
  predicate Enabled(b: Image, op: Op) {
    match op
    case Prepend(d) => |d| <= b.read
    case Unwrite(n) => n <= |b.content|
    case ReadByte => |b.content| >= 1
    case Unread(d) => |d| < b.read
    case TakeIn(d) => |d| <= b.Writable()
    case _ => true
  }

  function Apply(b: Image, op: Op): Image
    requires Enabled(b, op)
  {
    match op
    case Write(d) => Written(b, d)
    case Prepend(d) => Prepended(b, d)
    case Skip(n) => Skipped(b, n)
    case Next(n) => Skipped(b, n)
    case ReadByte => ByteRead(b)
    case Truncate(n) => Truncated(b, n)
    case Unwrite(n) => Unwritten(b, n)
    case ToText => Unwritten(Written(b, [0]), 1)
    case EnsureWritable(n) => Ensured(b, n)
    case Reserve(n) => Reserved(b, n)
    case Shrink(n) => Shrunk(b, n)
    case Unread(d) => Prepended(b, d)
    case TakeIn(d) => TakenIn(b, d)
  }

  // ---------- no internal assertion can fail ----------

  /**
    Both branches of grow make the room asked for, and the compaction branch is entered only
    with the content strictly past the reserved area, as it asserts.
  */
  lemma {:induction false} EnsureMakesRoom(b: Image, len: nat)
    requires b.Valid()
    ensures Ensured(b, len).Valid() && Ensured(b, len).Writable() >= len
    ensures Ensured(b, len).content == b.content
    ensures b.Writable() < len && !Reallocates(b, len) ==> b.reserved < b.read
  {
  }

  /** With room at the end, writing moves nothing. */
  lemma {:induction false} WriteWithinRoom(b: Image, d: seq<Byte>)
    requires b.Valid() && |d| <= b.Writable()
    ensures Written(b, d) == b.(content := b.content + d)
    ensures Written(b, d).Writable() == b.Writable() - |d|
  {
  }

  /** Reserve never reaches the compaction branch, and leaves room for len bytes in all. */
  lemma {:induction false} ReserveReallocates(b: Image, len: nat)
    requires b.Valid()
    ensures b.capacity < len + b.reserved ==> Reallocates(b, len + b.reserved)
    ensures Reserved(b, len).Valid() && Reserved(b, len).content == b.content
    ensures Reserved(b, len).capacity >= len + b.reserved
  {
  }

  // ---------- the double-ended queue ----------

  function Min(a: nat, b: nat): nat { if a < b then a else b }
  function Max(a: nat, b: nat): nat { if a < b then b else a }

  /** What an operation means for the bytes queued. */
  function Queue(c: seq<Byte>, op: Op): seq<Byte> {
    match op
    case Write(d) => c + d
    case Prepend(d) => d + c
    case Skip(n) => c[Min(n, |c|)..]
    case Next(n) => c[Min(n, |c|)..]
    case ReadByte => c[Min(1, |c|)..]
    case Truncate(n) => c[..Min(n, |c|)]
    case Unwrite(n) => c[..|c| - Min(n, |c|)]
    case Unread(d) => d + c
    case TakeIn(d) => c + d
    case _ => c
  }

  /** One operation refines the queue, whichever branch of grow runs. */
  lemma {:induction false} ApplyRefinesQueue(b: Image, op: Op)
    requires b.Valid() && Enabled(b, op)
    ensures Apply(b, op).Valid()
    ensures Apply(b, op).content == Queue(b.content, op)
  {
    match op
    case Write(d) => EnsureMakesRoom(b, |d|);
    case ToText =>
      EnsureMakesRoom(b, 1);
      assert (b.content + [0])[..|b.content|] == b.content;
    case Shrink(n) =>
      var f := Fresh(|b.content| + n, CHEAP_PREPEND);
      EnsureMakesRoom(f, |b.content|);
      assert [] + b.content == b.content;
    case Skip(n) => assert b.content[|b.content|..] == [];
    case Next(n) => assert b.content[|b.content|..] == [];
    case Truncate(n) => assert b.content[..|b.content|] == b.content;
    case _ =>
  }

  // ---------- runs ----------

  predicate Legal(b: Image, ops: seq<Op>)
    decreases |ops|
  {
    ops == [] || (Enabled(b, ops[0]) && Legal(Apply(b, ops[0]), ops[1..]))
  }

  function Run(b: Image, ops: seq<Op>): Image
    requires Legal(b, ops)
    decreases |ops|
  {
    if ops == [] then b else Run(Apply(b, ops[0]), ops[1..])
  }

  function QueueRun(c: seq<Byte>, ops: seq<Op>): seq<Byte>
    decreases |ops|
  {
    if ops == [] then c else QueueRun(Queue(c, ops[0]), ops[1..])
  }

  /** Every run of operations refines the queue and keeps the indices in order. */
  lemma {:induction false} RunRefinesQueue(b: Image, ops: seq<Op>)
    requires b.Valid() && Legal(b, ops)
    ensures Run(b, ops).Valid()
    ensures Run(b, ops).content == QueueRun(b.content, ops)
    decreases |ops|
  {
    hide Queue, Apply;
    if ops != [] {
      ApplyRefinesQueue(b, ops[0]);
      RunRefinesQueue(Apply(b, ops[0]), ops[1..]);
    }
  }

  // ---------- conservation: nothing is lost, duplicated or reordered ----------

  /** The bytes an operation takes off the front. */
  function Taken(c: seq<Byte>, op: Op): seq<Byte> {
    match op
    case Skip(n) => c[..Min(n, |c|)]
    case Next(n) => c[..Min(n, |c|)]
    case ReadByte => c[..Min(1, |c|)]
    case _ => []
  }

  function Added(op: Op): seq<Byte> {
    if op.Write? then op.d else []
  }

  function AllTaken(c: seq<Byte>, ops: seq<Op>): seq<Byte>
    decreases |ops|
  {
    if ops == [] then [] else Taken(c, ops[0]) + AllTaken(Queue(c, ops[0]), ops[1..])
  }

  function AllAdded(ops: seq<Op>): seq<Byte>
    decreases |ops|
  {
    if ops == [] then [] else Added(ops[0]) + AllAdded(ops[1..])
  }

  /** Operations of a byte stream: written at one end, taken at the other, moved in between. */
  predicate StreamOp(op: Op) {
    op.Write? || op.Skip? || op.Next? || op.ReadByte? || op.ToText?
    || op.EnsureWritable? || op.Reserve? || op.Shrink?
  }

  predicate StreamOps(ops: seq<Op>) {
    forall i :: 0 <= i < |ops| ==> StreamOp(ops[i])
  }

  /** What came out, followed by what is left, is what was there followed by what went in. */
  lemma {:induction false} StreamConservation(b: Image, ops: seq<Op>)
    requires b.Valid() && Legal(b, ops) && StreamOps(ops)
    ensures AllTaken(b.content, ops) + Run(b, ops).content == b.content + AllAdded(ops)
    decreases |ops|
  {
    hide Apply, Queue, Taken, Added, StreamOp;
    if ops != [] {
      var op, b' := ops[0], Apply(b, ops[0]);
      assert StreamOp(op);
      ApplyRefinesQueue(b, op);
      StreamConservation(b', ops[1..]);
      StreamStep(b.content, op);
      var t, q, a, r := Taken(b.content, op), Queue(b.content, op), Added(op), AllAdded(ops[1..]);
      calc {
        AllTaken(b.content, ops) + Run(b, ops).content;
        t + AllTaken(q, ops[1..]) + Run(b', ops[1..]).content;
        t + (AllTaken(q, ops[1..]) + Run(b', ops[1..]).content);
        t + (q + r);
        (t + q) + r;
        (b.content + a) + r;
        b.content + (a + r);
      }
    }
  }

  lemma {:induction false} StreamStep(c: seq<Byte>, op: Op)
    requires StreamOp(op)
    ensures Taken(c, op) + Queue(c, op) == c + Added(op)
  {
  }

  // ---------- memory and copying ----------

  /** The most bytes the operation needs to hold at once. */
  function Demand(c: seq<Byte>, op: Op): nat {
    match op
    case Write(d) => |c| + |d|
    case Prepend(d) => |c| + |d|
    case EnsureWritable(n) => |c| + n
    case ToText => |c| + 1
    case Unread(d) => |c| + |d|
    case TakeIn(d) => |c| + |d|
    case _ => |c|
  }

  /** The most bytes the queue ever holds, or is asked to hold, in a run. */
  function Peak(c: seq<Byte>, ops: seq<Op>): nat
    decreases |ops|
  {
    if ops == [] then |c| else Max(Demand(c, ops[0]), Peak(Queue(c, ops[0]), ops[1..]))
  }

  /** Where nothing asks for room ahead, the peak is the longest that the queue ever gets. */
  lemma {:induction false} PeakIsLongest(c: seq<Byte>, ops: seq<Op>, n: nat)
    requires forall i :: 0 <= i < |ops| ==> !ops[i].EnsureWritable? && !ops[i].ToText?
    ensures Peak(c, ops) <= n <==> forall k :: 0 <= k <= |ops| ==> |QueueRun(c, ops[..k])| <= n
    decreases |ops|
  {
    hide Queue, Demand;
    assert QueueRun(c, ops[..0]) == c;
    if ops != [] {
      var next, rest := Queue(c, ops[0]), ops[1..];
      DemandIsLength(c, ops[0]);
      PeakIsLongest(next, rest, n);
      assert forall k :: 0 < k <= |ops| ==> ops[..k][1..] == rest[..k - 1];
      assert forall k :: 0 < k <= |ops| ==> QueueRun(c, ops[..k]) == QueueRun(next, rest[..k - 1]);
      if forall k :: 0 <= k <= |ops| ==> |QueueRun(c, ops[..k])| <= n {
        assert |QueueRun(c, ops[..1])| <= n && rest[..0] == [];
        forall k | 0 <= k <= |rest|
          ensures |QueueRun(next, rest[..k])| <= n
        {
          assert QueueRun(c, ops[..k + 1]) == QueueRun(next, rest[..k]);
        }
      }
    }
  }

  lemma {:induction false} DemandIsLength(c: seq<Byte>, op: Op)
    requires !op.EnsureWritable? && !op.ToText?
    ensures Demand(c, op) == Max(|c|, |Queue(c, op)|)
  {
  }

  /** Reserve and Shrink ask for a capacity of their own; every other operation is ordinary. */
  predicate Ordinary(ops: seq<Op>) {
    forall i :: 0 <= i < |ops| ==> !ops[i].Reserve? && !ops[i].Shrink?
  }

  /** Capacity stays within three times the peak, whatever the run's length. */
  lemma {:induction false} MemoryBound(b: Image, ops: seq<Op>)
    requires b.Valid() && Legal(b, ops) && Ordinary(ops)
    ensures Run(b, ops).reserved == b.reserved
    ensures Run(b, ops).capacity <= Max(b.capacity, 3 * Peak(b.content, ops) + 2 * b.reserved)
    decreases |ops|
  {
    hide Queue, Apply, Demand;
    if ops != [] {
      ApplyRefinesQueue(b, ops[0]);
      StepBound(b, ops[0]);
      MemoryBound(Apply(b, ops[0]), ops[1..]);
    }
  }

  lemma {:induction false} StepBound(b: Image, op: Op)
    requires b.Valid() && Enabled(b, op) && !op.Reserve? && !op.Shrink?
    ensures Apply(b, op).reserved == b.reserved
    ensures Apply(b, op).capacity <= Max(b.capacity, 3 * Demand(b.content, op) + 2 * b.reserved)
  {
  }

  /** Bytes that a reallocation inside the operation copies to the new storage. */
  function Copied(b: Image, op: Op): nat {
    match op
    case Write(d) => if b.Writable() < |d| && Reallocates(b, |d|) then |b.content| else 0
    case ToText => if b.Writable() < 1 && Reallocates(b, 1) then |b.content| else 0
    case EnsureWritable(n) => if b.Writable() < n && Reallocates(b, n) then |b.content| else 0
    case Reserve(n) => if b.capacity < n + b.reserved && Reallocates(b, n + b.reserved) then |b.content| else 0
    case _ => 0
  }

  function AllCopied(b: Image, ops: seq<Op>): nat
    requires Legal(b, ops)
    decreases |ops|
  {
    if ops == [] then 0 else Copied(b, ops[0]) + AllCopied(Apply(b, ops[0]), ops[1..])
  }

  /** Amortised cost: all the copying of a run is paid for by the capacity it added. */
  lemma {:induction false} CopyBound(b: Image, ops: seq<Op>)
    requires b.Valid() && Legal(b, ops)
    requires forall i :: 0 <= i < |ops| ==> !ops[i].Shrink?
    ensures b.capacity + AllCopied(b, ops) <= Run(b, ops).capacity
    decreases |ops|
  {
    hide Queue, Apply, Copied;
    if ops != [] {
      ApplyRefinesQueue(b, ops[0]);
      StepCopyBound(b, ops[0]);
      CopyBound(Apply(b, ops[0]), ops[1..]);
    }
  }

  lemma {:induction false} StepCopyBound(b: Image, op: Op)
    requires b.Valid() && Enabled(b, op) && !op.Shrink?
    ensures b.capacity + Copied(b, op) <= Apply(b, op).capacity
  {
  }

  /** The last operation of a run works on the image that the others leave. */
  lemma {:induction false} RunSnoc(b: Image, ops: seq<Op>)
    requires Legal(b, ops) && ops != []
    ensures var front, last := ops[..|ops| - 1], ops[|ops| - 1];
            Legal(b, front) && Enabled(Run(b, front), last) && Run(b, ops) == Apply(Run(b, front), last)
    decreases |ops|
  {
    hide Apply, Enabled;
    if |ops| > 1 {
      RunSnoc(Apply(b, ops[0]), ops[1..]);
      assert ops[1..][..|ops| - 2] == ops[..|ops| - 1][1..];
    }
  }

  /** Operations that leave nothing unread by moving back to the reserve. */
  predicate Drains(c: seq<Byte>, op: Op) {
    match op
    case Skip(n) => n >= |c|
    case Next(n) => n >= |c|
    case Truncate(n) => n == 0
    case _ => false
  }

  /** Whatever a run did before, draining the buffer at its end gives the whole reserve back. */
  lemma {:induction false} DrainRestoresReserve(b: Image, ops: seq<Op>)
    requires b.Valid() && Legal(b, ops) && Ordinary(ops) && ops != []
    requires Drains(QueueRun(b.content, ops[..|ops| - 1]), ops[|ops| - 1])
    ensures var end := Run(b, ops);
            end.read == b.reserved && end.content == [] && end.Writable() == end.capacity - b.reserved
  {
    hide Legal, Run, QueueRun;
    var front := ops[..|ops| - 1];
    RunSnoc(b, ops);
    RunRefinesQueue(b, front);
    MemoryBound(b, front);
  }

  /** A buffer's whole life from construction: its meaning, its memory and its copying at once. */
  lemma {:induction false} LifeOfBuffer(initial: nat, reserved: nat, ops: seq<Op>)
    requires Legal(Fresh(initial, reserved), ops) && Ordinary(ops)
    ensures var b, end := Fresh(initial, reserved), Run(Fresh(initial, reserved), ops);
            var limit := Max(initial + reserved, 3 * Peak([], ops) + 2 * reserved);
            && end.content == QueueRun([], ops)
            && end.capacity <= limit
            && AllCopied(b, ops) <= limit - (initial + reserved)
  {
    var b := Fresh(initial, reserved);
    RunRefinesQueue(b, ops);
    MemoryBound(b, ops);
    CopyBound(b, ops);
  }

  // ---------- taking back the last read ----------

  /**
    Next(n) and then UnreadBytes(n), over the whole storage: the assertion holds and the contents
    are back exactly in these cases. A read that does not drain the buffer can be taken back
    unless the read index was 0. A read that drains it moves the read index to the reserve, so it
    comes back only if it took exactly what is stored in front of the reserve.
  */
  lemma {:induction false} TakeBackIff(storage: seq<Byte>, b: Image, n: nat)
    requires b.Valid() && |storage| == b.capacity && storage[b.read..b.read + |b.content|] == b.content
    ensures var a := Skipped(b, n);
            (n < a.read && storage[a.read - n..a.read] + a.content == b.content)
            <==> if n < |b.content| then b.read > 0
                 else n == |b.content| && n < b.reserved && storage[b.reserved - n..b.reserved] == b.content
  {
    var a := Skipped(b, n);
    if n < |b.content| {
      assert storage[a.read - n..a.read] == b.content[..n];
      assert b.content == b.content[..n] + b.content[n..];
    } else if n < a.read {
      assert storage[a.read - n..a.read] + a.content == storage[a.read - n..a.read];
    }
  }

  /** Without a reserve not even the first undrained read can be taken back. */
  lemma {:induction false} TakeBackFails(d: seq<Byte>)
    requires |d| == 5
    ensures var b := Written(Fresh(INITIAL_SIZE, 0), d);
            b.content == d && Skipped(b, 3).content == d[3..] && !(3 < Skipped(b, 3).read)
  {
    EnsureMakesRoom(Fresh(INITIAL_SIZE, 0), 5);
  }
}
