/**
 The single-producer byte ring of the kernel's IPC table: length-prefixed
 frames in a 64 KiB circular buffer, addressed by two free-running 64-bit
 counters that wrap.

 `SharedRingBuffer` is the object the kernel shares.  `World` is the same ring
 seen by an interleaving of one producer, which pushes byte by byte, and one
 consumer, which moves `tail` over one whole frame at a time.
 */
module SharedRing {
  import opened Words

  const BUFFER_SIZE := 65536

  type Payload = seq<Byte>
  type Ring = s: seq<Byte> | |s| == BUFFER_SIZE witness seq(BUFFER_SIZE, _ => 0)

  /** What a push writes: the payload length truncated to 16 bits, then the payload. */
  function Frame(p: Payload): (f: seq<Byte>)
    ensures |f| == |p| + 2
  {
    ToLe(|p|, 2) + p
  }

  function Frames(q: seq<Payload>): seq<Byte> {
    if q == [] then [] else Frame(q[0]) + Frames(q[1..])
  }

  /** The cell of the buffer that counter value `x` stands for. */
  function Cell(x: nat): (c: nat)
    ensures c < BUFFER_SIZE
  {
    x % BUFFER_SIZE
  }

  /** The `n` bytes that start at counter value `start`. */
  function Window(buf: Ring, start: nat, n: nat): (s: seq<Byte>)
    ensures |s| == n
  {
    seq(n, i requires 0 <= i < n => buf[Cell(start + i)])
  }

  /** Splits a byte string into the payloads of its frames. */
  function Decode(bytes: seq<Byte>): (r: seq<Payload>)
    decreases |bytes|
  {
    if |bytes| < 2 then []
    else
      var n := FromLe(bytes[..2]);
      if |bytes| < n + 2 then []
      else [bytes[2..n + 2]] + Decode(bytes[n + 2..])
  }

  // ---------------------------------------------------------------------
  // The interleaved machine
  // ---------------------------------------------------------------------

  /** Where the producer stands inside `push`: `done` bytes of the frame are written. */
  datatype Producer = Idle | Writing(start: U64, data: Payload, done: nat)

  /** `sent` lists the published payloads and `received` what the consumer read out. */
  datatype World = World(
    head: U64, tail: U64, buf: Ring, producer: Producer,
    sent: seq<Payload>, received: seq<Payload>)

  datatype Action = Begin(data: Payload) | WriteByte | Publish | Consume

  const FRESH := World(0, 0, seq(BUFFER_SIZE, _ => 0), Idle, [], [])

  function Used(w: World): U64 {
    WrappingSub(w.head, w.tail)
  }

  /** The test at the head of `push`. */
  predicate HasRoom(w: World, data: Payload) {
    BUFFER_SIZE - Used(w) >= |data| + 2
  }

  predicate Enabled(w: World, a: Action) {
    match a
    case Begin(_) => w.producer.Idle?
    case WriteByte => w.producer.Writing? && w.producer.done < |w.producer.data| + 2
    case Publish => w.producer.Writing? && w.producer.done == |w.producer.data| + 2
    case Consume => w.head != w.tail
  }

  function FrameLength(w: World): nat {
    FromLe(Window(w.buf, w.tail, 2))
  }

  function Apply(w: World, a: Action): World
    requires Enabled(w, a)
  {
    match a
    case Begin(data) =>
      if HasRoom(w, data) then w.(producer := Writing(w.head, data, 0)) else w
    case WriteByte =>
      var Writing(start, data, done) := w.producer;
      w.(buf := w.buf[Cell(start + done) := Frame(data)[done]],
         producer := Writing(start, data, done + 1))
    case Publish =>
      w.(head := WrappingAdd(w.producer.start, |w.producer.data| + 2),
         producer := Idle,
         sent := w.sent + [w.producer.data])
    case Consume =>
      var n := FrameLength(w);
      w.(tail := WrappingAdd(w.tail, n + 2),
         received := w.received + [Window(w.buf, w.tail + 2, n)])
  }

  /** `w` is what the actions lead to from `start`, each one enabled in its turn. */
  predicate Reaches(start: World, actions: seq<Action>, w: World)
    decreases |actions|
  {
    if actions == [] then w == start
    else Enabled(start, actions[0]) && Reaches(Apply(start, actions[0]), actions[1..], w)
  }

  /** The published bytes no consumer has passed: counters [tail, head). */
  function Region(w: World): seq<Byte> {
    Window(w.buf, w.tail, Used(w))
  }

  // ---------------------------------------------------------------------
  // The invariant
  // ---------------------------------------------------------------------

  predicate Fits(q: seq<Payload>) {
    forall i :: 0 <= i < |q| ==> |q[i]| + 2 <= BUFFER_SIZE
  }

  /** `head` and `tail` stand for the unbounded counts of bytes published and consumed. */
  predicate Counters(head: U64, tail: U64, h: nat, t: nat) {
    head == h % TWO_64 && tail == t % TWO_64 && t <= h <= t + BUFFER_SIZE
  }

  /** The cells of counters [t, h) hold the frames of `rest`. */
  predicate Holds(buf: Ring, t: nat, h: nat, rest: seq<Payload>) {
    t <= h && Window(buf, t, h - t) == Frames(rest)
  }

  /** An unfinished push has written a prefix of its frame behind the published bytes. */
  predicate Pushing(p: Producer, head: U64, buf: Ring, h: nat, t: nat) {
    p.Writing? ==>
      && p.start == head
      && p.done <= |p.data| + 2
      && h + |p.data| + 2 <= t + BUFFER_SIZE
      && Window(buf, h, p.done) == Frame(p.data)[..p.done]
  }

  /**
   With H and T the unbounded counts of bytes published and consumed, `head`
   and `tail` are H and T modulo 2^64, the ring holds the unconsumed frames at
   [T, H), and an unfinished push owns [H, H + done).
   */
  ghost predicate Inv(w: World) {
    var h := |Frames(w.sent)|;
    var t := |Frames(w.received)|;
    && w.received <= w.sent
    && Fits(w.sent)
    && Counters(w.head, w.tail, h, t)
    && Holds(w.buf, t, h, w.sent[|w.received|..])
    && Pushing(w.producer, w.head, w.buf, h, t)
  }

  lemma WrapIsHarmless(x: nat, i: nat)
    ensures Cell(x % TWO_64 + i) == Cell(x + i)
  {
    var q := x / TWO_64;
    assert x + i == (x % TWO_64 + i) + (q * 0x1_0000_0000_0000) * BUFFER_SIZE;
    ModShift(x % TWO_64 + i, q * 0x1_0000_0000_0000);
  }

  lemma ModShift(x: nat, k: nat)
    ensures (x + k * BUFFER_SIZE) % BUFFER_SIZE == x % BUFFER_SIZE
  {
  }

  lemma WindowWraps(buf: Ring, x: nat, i: nat, n: nat)
    ensures Window(buf, x % TWO_64 + i, n) == Window(buf, x + i, n)
  {
    var s, t := Window(buf, x % TWO_64 + i, n), Window(buf, x + i, n);
    forall k | 0 <= k < n
      ensures s[k] == t[k]
    {
      WrapIsHarmless(x, i + k);
    }
  }

  /** Two counters less than a ring apart never share a cell. */
  lemma DistinctCells(a: nat, b: nat)
    requires a < b < a + BUFFER_SIZE
    ensures Cell(a) != Cell(b)
  {
  }

  lemma WindowUntouched(buf: Ring, a: nat, n: nat, j: nat, b: Byte)
    requires a + n <= j < a + BUFFER_SIZE
    ensures Window(buf[Cell(j) := b], a, n) == Window(buf, a, n)
  {
    forall c | a <= c < a + n
      ensures Cell(c) != Cell(j)
    {
      DistinctCells(c, j);
    }
  }

  lemma WindowSplit(buf: Ring, a: nat, m: nat, n: nat)
    ensures Window(buf, a, m + n) == Window(buf, a, m) + Window(buf, a + m, n)
  {
  }

  lemma {:induction false} FramesAppend(q: seq<Payload>, r: seq<Payload>)
    ensures Frames(q + r) == Frames(q) + Frames(r)
  {
    if q == [] {
      assert q + r == r;
    } else {
      assert (q + r)[0] == q[0] && (q + r)[1..] == q[1..] + r;
      FramesAppend(q[1..], r);
    }
  }

  lemma FrameHeader(p: Payload)
    requires |p| < 65536
    ensures FromLe(Frame(p)[..2]) == |p|
  {
    assert Pow256(2) == 65536 by { assert Pow256(1) == 256 * Pow256(0); }
    FromLeToLe(|p|, 2);
    assert Frame(p)[..2] == ToLe(|p|, 2);
  }

  /** Framing is a code: it is undone by splitting. */
  lemma {:induction false} DecodeInvertsFrames(q: seq<Payload>)
    requires Fits(q)
    ensures Decode(Frames(q)) == q
  {
    if q != [] {
      var bytes := Frames(q);
      FrameHeader(q[0]);
      assert bytes[..2] == Frame(q[0])[..2];
      assert bytes[2..|q[0]| + 2] == q[0];
      assert bytes[|q[0]| + 2..] == Frames(q[1..]);
      DecodeInvertsFrames(q[1..]);
    }
  }

  lemma UsedIsExact(w: World)
    requires Inv(w)
    ensures Used(w) == |Frames(w.sent)| - |Frames(w.received)|
  {
    var h, t := |Frames(w.sent)|, |Frames(w.received)|;
    ModDifference(h, t);
  }

  lemma ModDifference(h: nat, t: nat)
    requires t <= h < t + TWO_64
    ensures (h % TWO_64 - t % TWO_64) % TWO_64 == h - t
  {
    var k := h / TWO_64 - t / TWO_64;
    assert h % TWO_64 - t % TWO_64 == (h - t) - k * TWO_64;
  }

  /** A byte written behind the published ones leaves the unread frames alone. */
  lemma WriteKeepsUnread(buf: Ring, t: nat, h: nat, rest: seq<Payload>, j: nat, b: Byte)
    requires Holds(buf, t, h, rest) && h <= j < t + BUFFER_SIZE
    ensures Holds(buf[Cell(j) := b], t, h, rest)
  {
    WindowUntouched(buf, t, h - t, j, b);
  }

  lemma WriteExtendsPush(buf: Ring, h: nat, data: Payload, done: nat)
    requires done < |data| + 2 <= BUFFER_SIZE && Window(buf, h, done) == Frame(data)[..done]
    ensures Window(buf[Cell(h + done) := Frame(data)[done]], h, done + 1) == Frame(data)[..done + 1]
  {
    var b := Frame(data)[done];
    var buf' := buf[Cell(h + done) := b];
    WindowUntouched(buf, h, done, h + done, b);
    WindowSplit(buf', h, done, 1);
    assert Window(buf', h + done, 1) == [b];
  }

  lemma StepWriteByte(w: World)
    requires Inv(w) && Enabled(w, WriteByte)
    ensures Inv(Apply(w, WriteByte))
  {
    var h, t := |Frames(w.sent)|, |Frames(w.received)|;
    var Writing(start, data, done) := w.producer;
    WrapIsHarmless(h, done);
    WriteKeepsUnread(w.buf, t, h, w.sent[|w.received|..], h + done, Frame(data)[done]);
    WriteExtendsPush(w.buf, h, data, done);
  }

  lemma FramesOneMore(q: seq<Payload>, p: Payload)
    ensures Frames(q + [p]) == Frames(q) + Frame(p)
  {
    assert Frames([p]) == Frame(p);
    FramesAppend(q, [p]);
  }

  /** A whole frame behind the unread frames extends them. */
  lemma RegionGrows(buf: Ring, t: nat, h: nat, rest: seq<Payload>, data: Payload)
    requires Holds(buf, t, h, rest) && Window(buf, h, |data| + 2) == Frame(data)
    ensures Holds(buf, t, h + (|data| + 2), rest + [data])
  {
    FramesOneMore(rest, data);
    WindowSplit(buf, t, h - t, |data| + 2);
  }

  lemma HeadMoves(head: U64, tail: U64, h: nat, t: nat, n: nat)
    requires Counters(head, tail, h, t) && h + n <= t + BUFFER_SIZE
    ensures Counters(WrappingAdd(head, n), tail, h + n, t)
  {
    AddWraps(h, n);
  }

  lemma TailMoves(head: U64, tail: U64, h: nat, t: nat, n: nat)
    requires Counters(head, tail, h, t) && t + n <= h
    ensures Counters(head, WrappingAdd(tail, n), h, t + n)
  {
    AddWraps(t, n);
  }

  lemma PushComplete(p: Producer, head: U64, buf: Ring, h: nat, t: nat)
    requires Pushing(p, head, buf, h, t) && p.Writing? && p.done == |p.data| + 2
    ensures p.start == head && h + (|p.data| + 2) <= t + BUFFER_SIZE
    ensures Window(buf, h, |p.data| + 2) == Frame(p.data)
  {
    assert Frame(p.data)[..|p.data| + 2] == Frame(p.data);
  }

  /** The invariant behind one more published payload. */
  lemma PublishedInv(w: World, data: Payload, w': World)
    requires w.received <= w.sent && Fits(w.sent) && Fits([data])
    requires Counters(w'.head, w.tail, |Frames(w.sent + [data])|, |Frames(w.received)|)
    requires Holds(w.buf, |Frames(w.received)|, |Frames(w.sent + [data])|, w.sent[|w.received|..] + [data])
    requires w' == World(w'.head, w.tail, w.buf, Idle, w.sent + [data], w.received)
    ensures Inv(w')
  {
    assert w'.sent[|w.received|..] == w.sent[|w.received|..] + [data];
  }

  lemma StepPublish(w: World)
    requires Inv(w) && Enabled(w, Publish)
    ensures Inv(Apply(w, Publish))
  {
    var h, t := |Frames(w.sent)|, |Frames(w.received)|;
    var data, rest := w.producer.data, w.sent[|w.received|..];
    PushComplete(w.producer, w.head, w.buf, h, t);
    FramesOneMore(w.sent, data);
    RegionGrows(w.buf, t, h, rest, data);
    HeadMoves(w.head, w.tail, h, t, |data| + 2);
    PublishedInv(w, data, Apply(w, Publish));
  }

  lemma HeadFrame(w: World)
    requires Inv(w) && w.head != w.tail
    ensures |w.received| < |w.sent|
    ensures var p := w.sent[|w.received|];
            && FrameLength(w) == |p|
            && Window(w.buf, w.tail + 2, |p|) == p
  {
    var h, t := |Frames(w.sent)|, |Frames(w.received)|;
    var r := |w.received|;
    assert w.received != w.sent;
    assert r < |w.sent|;
    var p := w.sent[r];
    assert w.sent[r..][0] == p;
    assert Frame(p) <= Frames(w.sent[r..]);
    var n := |p|;
    WindowSplit(w.buf, t, n + 2, h - t - n - 2);
    assert Window(w.buf, t, n + 2) == Frame(p);
    WindowSplit(w.buf, t, 2, n);
    FrameHeader(p);
    WindowWraps(w.buf, t, 0, 2);
    WindowWraps(w.buf, t, 2, n);
    assert Window(w.buf, t, 2) == Frame(p)[..2];
  }

  /** Behind the first unread frame lie the others. */
  lemma RegionBehindFrame(buf: Ring, t: nat, h: nat, p: Payload, rest: seq<Payload>)
    requires Holds(buf, t, h, [p] + rest)
    ensures t + (|p| + 2) <= h && Holds(buf, t + (|p| + 2), h, rest)
  {
    var n := |p| + 2;
    assert ([p] + rest)[1..] == rest;
    assert Frames([p] + rest) == Frame(p) + Frames(rest);
    WindowSplit(buf, t, n, h - t - n);
    assert Window(buf, t, h - t)[n..] == Window(buf, t + n, h - t - n);
    assert (Frame(p) + Frames(rest))[n..] == Frames(rest);
  }

  lemma StepConsume(w: World)
    requires Inv(w) && Enabled(w, Consume)
    ensures Inv(Apply(w, Consume))
    ensures |w.received| < |w.sent|
    ensures Apply(w, Consume).received == w.received + [w.sent[|w.received|]]
  {
    HeadFrame(w);
    var h, t := |Frames(w.sent)|, |Frames(w.received)|;
    var r := |w.received|;
    var p, rest := w.sent[r], w.sent[r + 1..];
    assert w.sent[r..] == [p] + rest;
    RegionBehindFrame(w.buf, t, h, p, rest);
    FramesOneMore(w.received, p);
    TailMoves(w.head, w.tail, h, t, |p| + 2);
  }

  lemma Step(w: World, a: Action)
    requires Inv(w) && Enabled(w, a)
    ensures Inv(Apply(w, a))
  {
    match a
    case Begin(data) => UsedIsExact(w);
    case WriteByte => StepWriteByte(w);
    case Publish => StepPublish(w);
    case Consume => StepConsume(w);
  }

  lemma {:induction false} RunKeepsInv(start: World, actions: seq<Action>, w: World)
    requires Inv(start) && Reaches(start, actions, w)
    ensures Inv(w)
    decreases |actions|
  {
    if actions != [] {
      Step(start, actions[0]);
      RunKeepsInv(Apply(start, actions[0]), actions[1..], w);
    }
  }

  // ---------------------------------------------------------------------
  // Main results
  // ---------------------------------------------------------------------

  lemma ReachedIsInv(actions: seq<Action>, w: World)
    requires Reaches(FRESH, actions, w)
    ensures Inv(w)
  {
    assert Window(FRESH.buf, 0, 0) == [];
    RunKeepsInv(FRESH, actions, w);
  }

  lemma RegionIsUnread(w: World)
    requires Inv(w)
    ensures Region(w) == Frames(w.sent[|w.received|..]) && |Region(w)| <= BUFFER_SIZE
  {
    UsedIsExact(w);
    var h, t := |Frames(w.sent)|, |Frames(w.received)|;
    WindowWraps(w.buf, t, 0, h - t);
  }

  /**
   Whatever the interleaving and however often the indices and the counters
   have wrapped: what the consumer has read is a prefix of what was published,
   and the unread region decodes to exactly the rest, in order.
   */
  lemma FifoUnderEveryInterleaving(actions: seq<Action>, w: World)
    requires Reaches(FRESH, actions, w)
    ensures w.received <= w.sent
    ensures Decode(Region(w)) == w.sent[|w.received|..]
    ensures |Region(w)| <= BUFFER_SIZE
  {
    ReachedIsInv(actions, w);
    RegionIsUnread(w);
    DecodeInvertsFrames(w.sent[|w.received|..]);
  }

  /** Whoever is still pushing, the consumer can always go on until it has received all that was sent. */
  lemma AllSentCanBeReceived(actions: seq<Action>, w: World) returns (takes: seq<Action>, end: World)
    requires Reaches(FRESH, actions, w)
    ensures |takes| == |w.sent| - |w.received| && forall i :: 0 <= i < |takes| ==> takes[i] == Consume
    ensures Reaches(w, takes, end) && end.received == end.sent == w.sent && end.producer == w.producer
  {
    ReachedIsInv(actions, w);
    takes, end := ReceiveRest(w);
  }

  lemma {:induction false} ReceiveRest(w: World) returns (takes: seq<Action>, end: World)
    requires Inv(w)
    ensures |takes| == |w.sent| - |w.received| && forall i :: 0 <= i < |takes| ==> takes[i] == Consume
    ensures Reaches(w, takes, end) && end.received == end.sent == w.sent && end.producer == w.producer
    decreases |w.sent| - |w.received|
  {
    takes, end := [], w;
    if w.received != w.sent {
      UnreadIsEnabled(w);
      StepConsume(w);
      takes, end := ReceiveRest(Apply(w, Consume));
      var rest := takes;
      takes := [Consume] + rest;
      assert takes[1..] == rest;
    }
  }

  lemma UnreadIsEnabled(w: World)
    requires Inv(w) && w.received != w.sent
    ensures Enabled(w, Consume)
  {
    UsedIsExact(w);
    var r := |w.received|;
    assert |Frames(w.sent[r..])| >= |Frame(w.sent[r])|;
    RegionIsUnread(w);
  }

  /** A push that is still writing never touches a byte of the unread region. */
  lemma WriterStaysOutOfRegion(actions: seq<Action>, w: World)
    requires Reaches(FRESH, actions, w) && Enabled(w, WriteByte)
    ensures forall c :: w.tail <= c < w.tail + Used(w) ==>
                          Cell(c) != Cell(w.producer.start + w.producer.done)
    ensures Region(Apply(w, WriteByte)) == Region(w)
  {
    ReachedIsInv(actions, w);
    WriterIsApart(w);
    RegionUntouched(w, w.producer.start + w.producer.done, Frame(w.producer.data)[w.producer.done]);
  }

  lemma WriterIsApart(w: World)
    requires Inv(w) && Enabled(w, WriteByte)
    ensures forall c :: w.tail <= c < w.tail + Used(w) ==>
                          Cell(c) != Cell(w.producer.start + w.producer.done)
  {
    UsedIsExact(w);
    var h, t := |Frames(w.sent)|, |Frames(w.received)|;
    var j := h + w.producer.done;
    WrapIsHarmless(h, w.producer.done);
    forall c | w.tail <= c < w.tail + (h - t)
      ensures Cell(c) != Cell(j)
    {
      WrapIsHarmless(t, c - w.tail);
      DistinctCells(t + (c - w.tail), j);
    }
  }

  lemma RegionUntouched(w: World, j: nat, b: Byte)
    requires forall c :: w.tail <= c < w.tail + Used(w) ==> Cell(c) != Cell(j)
    ensures Region(w.(buf := w.buf[Cell(j) := b])) == Region(w)
  {
  }

  /**
   A push is admitted exactly when its frame fits beside the unread frames, and
   then its length fits the 16-bit prefix without truncation.
   */
  lemma AdmissionIsExact(actions: seq<Action>, w: World, data: Payload)
    requires Reaches(FRESH, actions, w)
    ensures w.received <= w.sent
    ensures HasRoom(w, data)
            <==> |Frames(w.sent[|w.received|..])| + |Frame(data)| <= 65536
    ensures HasRoom(w, data) ==> |data| < 0x1_0000 && FromLe(Frame(data)[..2]) == |data|
  {
    assert Window(FRESH.buf, 0, 0) == [];
    RunKeepsInv(FRESH, actions, w);
    UsedIsExact(w);
    if HasRoom(w, data) {
      FrameHeader(data);
    }
  }

  // ---------------------------------------------------------------------
  // The shared object
  // ---------------------------------------------------------------------

  /** `buf` after `bytes` were written one by one from counter value `start`. */
  function Written(buf: Ring, start: nat, bytes: seq<Byte>): (r: Ring)
    decreases |bytes|
  {
    if bytes == [] then buf
    else
      var n := |bytes| - 1;
      Written(buf, start, bytes[..n])[Cell(start + n) := bytes[n]]
  }

  lemma WrittenOneMore(buf: Ring, start: nat, bytes: seq<Byte>, i: nat)
    requires i < |bytes|
    ensures Written(buf, start, bytes[..i + 1]) == Written(buf, start, bytes[..i])[Cell(start + i) := bytes[i]]
  {
    assert bytes[..i + 1][..i] == bytes[..i];
  }

  /** Byte `i` of what is written lies in cell `start + i`, modulo the size. */
  lemma {:induction false} WrittenAt(buf: Ring, start: nat, bytes: seq<Byte>, i: nat)
    requires i < |bytes| <= 65536
    ensures Written(buf, start, bytes)[(start + i) % 65536] == bytes[i]
  {
    var n := |bytes| - 1;
    if i < n {
      WrittenAt(buf, start, bytes[..n], i);
      DistinctCells(start + i, start + n);
    }
  }

  /** And all other cells are as they were. */
  lemma {:induction false} WrittenElsewhere(buf: Ring, start: nat, bytes: seq<Byte>, c: nat)
    requires c < 65536 && forall x :: start <= x < start + |bytes| ==> Cell(x) != c
    ensures Written(buf, start, bytes)[c] == buf[c]
  {
    if bytes != [] {
      WrittenElsewhere(buf, start, bytes[..|bytes| - 1], c);
    }
  }

  /** A frame is the length in two bytes, the low one first, and then the payload. */
  lemma FrameBytes(p: Payload)
    ensures Frame(p)[0] == |p| % 256 && Frame(p)[1] == |p| / 256 % 256 && Frame(p)[2..] == p
  {
    assert Pow256(1) == 256 && Pow256(0) == 1;
    ToLeByte(|p|, 2, 0);
    ToLeByte(|p|, 2, 1);
  }

  class SharedRingBuffer {
    var head: U64
    var tail: U64
    const buffer: array<Byte>

    constructor ()
      ensures head == 0 && tail == 0
      ensures fresh(buffer) && buffer.Length == BUFFER_SIZE
      ensures buffer[..] == FRESH.buf
    {
      head, tail := 0, 0;
      buffer := new Byte[BUFFER_SIZE](_ => 0);
    }

    method Push(data: seq<Byte>) returns (ok: bool)
      requires buffer.Length == BUFFER_SIZE
      // no more than the whole ring is in use, so the subtraction cannot underflow
      requires WrappingSub(head, tail) <= BUFFER_SIZE
      modifies this`head, buffer
      ensures ok <==> |data| + 2 <= BUFFER_SIZE - WrappingSub(old(head), tail)
      ensures head == if ok then WrappingAdd(old(head), |data| + 2) else old(head)
      ensures buffer[..] == if ok then Written(old(buffer[..]), old(head), Frame(data))
                            else old(buffer[..])
    {
      var available := BUFFER_SIZE - WrappingSub(head, tail);
      if available < |data| + 2 {
        return false;
      }
      ghost var was := buffer[..];
      ghost var frame := Frame(data);
      var lenBytes := ToLe(|data|, 2);
      for i := 0 to 2
        invariant buffer[..] == Written(was, head, frame[..i])
        invariant head == old(head)
      {
        WrittenOneMore(was, head, frame, i);
        buffer[Cell(head + i)] := lenBytes[i];
      }
      for i := 0 to |data|
        invariant buffer[..] == Written(was, head, frame[..2 + i])
        invariant head == old(head)
      {
        WrittenOneMore(was, head, frame, 2 + i);
        buffer[Cell(head + 2 + i)] := data[i];
      }
      assert frame[..2 + |data|] == frame;
      head := WrappingAdd(head, 2 + |data|);
      return true;
    }
  }

  lemma {:induction false} WrittenFirst(buf: Ring, start: nat, bytes: seq<Byte>)
    requires bytes != []
    ensures Written(buf, start, bytes)
            == Written(buf[Cell(start) := bytes[0]], start + 1, bytes[1..])
    decreases |bytes|
  {
    var n := |bytes| - 1;
    if n > 0 {
      WrittenFirst(buf, start, bytes[..n]);
      assert bytes[..n][1..] == bytes[1..][..n - 1];
    } else {
      assert bytes[..0] == [];
    }
  }

  function WritesThenPublish(n: nat): seq<Action> {
    seq(n, _ => WriteByte) + [Publish]
  }

  lemma WritesThenPublishCons(n: nat)
    requires n > 0
    ensures WritesThenPublish(n)[0] == WriteByte && WritesThenPublish(n)[1..] == WritesThenPublish(n - 1)
  {
  }

  lemma {:induction false} WritesReach(w: World, n: nat, w': World)
    requires w.producer.Writing? && w.producer.done + n == |w.producer.data| + 2
    requires w' == w.(
                   buf := Written(w.buf, w.producer.start + w.producer.done,
                                  Frame(w.producer.data)[w.producer.done..]),
                   producer := w.producer.(done := |w.producer.data| + 2))
    ensures Reaches(w, WritesThenPublish(n), Apply(w', Publish))
    decreases n
  {
    var frame, done := Frame(w.producer.data), w.producer.done;
    if n == 0 {
      assert w' == w;
      assert WritesThenPublish(0) == [Publish] && [Publish][1..] == [];
    } else {
      WrittenFirst(w.buf, w.producer.start + done, frame[done..]);
      assert frame[done..][1..] == frame[done + 1..] && frame[done..][0] == frame[done];
      WritesReach(Apply(w, WriteByte), n - 1, w');
      WritesThenPublishCons(n);
    }
  }

  /** The byte-by-byte producer of the machine, run without interruption. */
  function PushActions(data: Payload): seq<Action> {
    [Begin(data)] + WritesThenPublish(|data| + 2)
  }

  /**
   The object's `Push`, as its contract states it, is the uninterrupted run of
   the machine's producer; so every fact above holds of the shared object.
   */
  lemma PushRefinesMachine(w: World, data: Payload, w': World)
    requires w.producer.Idle? && HasRoom(w, data)
    requires w' == w.(head := WrappingAdd(w.head, |data| + 2),
                      buf := Written(w.buf, w.head, Frame(data)),
                      sent := w.sent + [data])
    ensures Reaches(w, PushActions(data), w')
  {
    var actions := PushActions(data);
    var w1 := Apply(w, Begin(data));
    assert Frame(data)[0..] == Frame(data);
    WritesReach(w1, |data| + 2,
                w1.(buf := Written(w.buf, w.head, Frame(data)),
                    producer := Writing(w.head, data, |data| + 2)));
    assert actions[0] == Begin(data);
    assert actions[1..] == WritesThenPublish(|data| + 2);
  }
}
