/** The pipe of os/src/fs/pipe.rs: a ring buffer shared by interleaved readers and writers. */
module Pipes {
  import opened Basics
  import opened Bytes

  const RING_BUFFER_SIZE: nat := 32

  datatype Status = Full | Empty | Normal

  /** The bytes from `head` up to `tail`, around the end; all of them when the two are equal. */
  function Window(a: seq<byte>, head: nat, tail: nat): seq<byte>
    requires head < |a| && tail < |a|
  {
    if head < tail then a[head..tail] else a[head..] + a[..tail]
  }

  lemma FrontOf(a: seq<byte>, head: nat, tail: nat, next: nat)
    requires head < |a| && tail < |a| && next == if head + 1 == |a| then 0 else head + 1
    ensures Window(a, head, tail) == [a[head]] + if next == tail then [] else Window(a, next, tail)
  {
    if head < tail {
      assert a[head..tail] == [a[head]] + a[head + 1..tail];
    } else {
      assert a[head..] == [a[head]] + a[head + 1..];
      if head + 1 == |a| {
        assert a[head + 1..] == [] && a[head..] + a[..tail] == [a[head]] + a[..tail];
      } else {
        assert a[head..] + a[..tail] == [a[head]] + (a[head + 1..] + a[..tail]);
      }
    }
  }

  /** Storing a byte at `tail`, with a ring that is empty when the two were equal before. */
  lemma BackOf(a: seq<byte>, head: nat, tail: nat, b: byte, next: nat)
    requires head < |a| && tail < |a| && next == if tail + 1 == |a| then 0 else tail + 1
    ensures Window(a[tail := b], head, next) ==
            (if head == tail then [] else Window(a, head, tail)) + [b]
  {
    var c := a[tail := b];
    if tail + 1 == |a| {
      assert c[head..] + c[..0] == c[head..|a| - 1] + [b] && c[head..tail] == a[head..tail];
    } else if head <= tail {
      assert c[head..tail + 1] == a[head..tail] + [b];
    } else {
      assert c[head..] == a[head..] && c[..tail + 1] == a[..tail] + [b];
      assert a[head..] + (a[..tail] + [b]) == (a[head..] + a[..tail]) + [b];
    }
  }

  class PipeRingBuffer {
    const arr: array<byte>
    var head: nat
    var tail: nat
    var status: Status

    ghost predicate Valid()
      reads this
    {
      && arr.Length == RING_BUFFER_SIZE && head < RING_BUFFER_SIZE && tail < RING_BUFFER_SIZE
      && (status == Normal <==> head != tail)
    }

    /** The bytes in the ring, oldest first. */
    ghost function Contents(): seq<byte>
      requires Valid()
      reads this, arr
    {
      if status == Empty then [] else Window(arr[..], head, tail)
    }

    constructor ()
      ensures Valid() && fresh(arr) && Contents() == []
    {
      arr := new byte[32](_ => 0);
      head, tail, status := 0, 0, Empty;
    }

    function AvailableRead(): (n: nat)
      requires Valid()
      reads this, arr
      ensures n == |Contents()| <= RING_BUFFER_SIZE
    {
      if status == Empty then 0 else if tail > head then tail - head else tail + RING_BUFFER_SIZE - head
    }

    function AvailableWrite(): (n: nat)
      requires Valid()
      reads this, arr
      ensures n == RING_BUFFER_SIZE - |Contents()|
    {
      if status == Full then 0 else RING_BUFFER_SIZE - AvailableRead()
    }

    /** `write_byte` on a ring that is not full. */
    method WriteByte(b: byte)
      requires Valid() && |Contents()| < RING_BUFFER_SIZE
      modifies this, arr
      ensures Valid() && Contents() == old(Contents()) + [b]
    {
      ghost var all, t := arr[..], tail;
      status := Normal;
      arr[tail] := b;
      assert arr[..] == all[t := b];
      tail := (tail + 1) % RING_BUFFER_SIZE;
      if tail == head {
        status := Full;
      }
      BackOf(all, head, t, b, tail);
    }

    /** `read_byte` on a ring that is not empty. */
    method ReadByte() returns (b: byte)
      requires Valid() && Contents() != []
      modifies this
      ensures Valid() && old(Contents()) == [b] + Contents()
    {
      ghost var h := head;
      status := Normal;
      b := arr[head];
      head := (head + 1) % RING_BUFFER_SIZE;
      if head == tail {
        status := Empty;
      }
      FrontOf(arr[..], h, tail, head);
    }
  }

  /** A call of `read` or `write` in progress, or finished when `done`. */
  datatype Reader = Reader(want: nat, got: seq<byte>, done: bool)
  datatype Writer = Writer(buf: seq<byte>, sent: nat, done: bool)

  datatype Action =
    | BeginRead(id: nat, want: nat)
    | BeginWrite(id: nat, buf: seq<byte>)
    | ContinueRead(id: nat)
    | ContinueWrite(id: nat)
    | Close

  /** A pipe as a plain queue of bytes, with the calls on it. */
  datatype PipeState =
    PipeState(queue: seq<byte>, readers: map<nat, Reader>, writers: map<nat, Writer>, open: bool)

  /** An iteration of the loop of `read`: what the queue holds and the buffer wants; the call waits on an
      empty queue until the write ends are closed. */
  function Reading(p: PipeState, id: nat): PipeState
    requires id in p.readers && |p.readers[id].got| <= p.readers[id].want
  {
    var r := p.readers[id];
    if p.queue == [] then
      if p.open then p else p.(readers := p.readers[id := r.(done := true)])
    else
      var k := Min(|p.queue|, r.want - |r.got|);
      p.(queue := p.queue[k..],
         readers := p.readers[id := Reader(r.want, r.got + p.queue[..k], |r.got| + k == r.want)])
  }

  /** An iteration of the loop of `write`: what the buffer has left and the queue has room for; the call
      waits on a full queue. */
  function Writing(p: PipeState, id: nat): PipeState
    requires id in p.writers && p.writers[id].sent <= |p.writers[id].buf|
  {
    var w := p.writers[id];
    if |p.queue| >= RING_BUFFER_SIZE then p
    else
      var k := Min(RING_BUFFER_SIZE - |p.queue|, |w.buf| - w.sent);
      p.(queue := p.queue + w.buf[w.sent..w.sent + k],
         writers := p.writers[id := Writer(w.buf, w.sent + k, w.sent + k == |w.buf|)])
  }

  /** An action that is not possible when its turn comes is skipped. */
  function Act(p: PipeState, a: Action): PipeState {
    match a
    case BeginRead(id, want) =>
      if id in p.readers then p else p.(readers := p.readers[id := Reader(want, [], false)])
    case BeginWrite(id, buf) =>
      if id in p.writers || !p.open then p else p.(writers := p.writers[id := Writer(buf, 0, false)])
    case ContinueRead(id) =>
      if id in p.readers && !p.readers[id].done && |p.readers[id].got| <= p.readers[id].want
      then Reading(p, id) else p
    case ContinueWrite(id) =>
      if p.open && id in p.writers && !p.writers[id].done && p.writers[id].sent <= |p.writers[id].buf|
      then Writing(p, id) else p
    case Close => if forall w | w in p.writers :: p.writers[w].done then p.(open := false) else p
  }

  function Replay(p: PipeState, schedule: seq<Action>): PipeState {
    if schedule == [] then p else Act(Replay(p, schedule[..|schedule| - 1]), schedule[|schedule| - 1])
  }

  lemma {:induction false} ReplayConcat(p: PipeState, a: seq<Action>, b: seq<Action>)
    ensures Replay(p, a + b) == Replay(Replay(p, a), b)
    decreases |b|
  {
    hide Act;
    if b == [] {
      assert a + b == a;
    } else {
      var n := |b| - 1;
      assert (a + b)[..|a| + n] == a + b[..n];
      ReplayConcat(p, a, b[..n]);
    }
  }

  /** The writer and the reader take turns. */
  function Turns(w: nat, r: nat, rounds: nat): seq<Action> {
    if rounds == 0 then [] else Turns(w, r, rounds - 1) + [ContinueWrite(w), ContinueRead(r)]
  }

  /** A writer that has sent, and a reader that has got, the first `n` bytes of `buf`, all of them there. */
  ghost predicate Level(p: PipeState, w: nat, r: nat, buf: seq<byte>, n: nat) {
    && p.open && p.queue == [] && n <= |buf|
    && w in p.writers && p.writers[w] == Writer(buf, n, n == |buf|)
    && r in p.readers && p.readers[r] == Reader(|buf|, buf[..n], n == |buf|)
  }

  /** Two new calls on an empty pipe. */
  lemma Begun(p: PipeState, w: nat, r: nat, buf: seq<byte>)
    requires p.open && p.queue == [] && w !in p.writers && r !in p.readers && buf != []
    ensures Level(Replay(p, [BeginWrite(w, buf), BeginRead(r, |buf|)]), w, r, buf, 0)
  {
    TwoActions(p, BeginWrite(w, buf), BeginRead(r, |buf|));
  }

  lemma OneRound(p: PipeState, w: nat, r: nat, buf: seq<byte>, n: nat)
    requires Level(p, w, r, buf, n) && n < |buf|
    ensures Level(Act(Act(p, ContinueWrite(w)), ContinueRead(r)), w, r, buf, Min(n + 32, |buf|))
  {
    hide Act;
    var k := Min(RING_BUFFER_SIZE, |buf| - n);
    var q := p.(queue := buf[n..n + k], writers := p.writers[w := Writer(buf, n + k, n + k == |buf|)]);
    WriteHalf(p, w, buf, n, k);
    ReadHalf(q, r, buf, n, k);
  }

  lemma WriteHalf(p: PipeState, w: nat, buf: seq<byte>, n: nat, k: nat)
    requires p.open && p.queue == [] && w in p.writers && p.writers[w] == Writer(buf, n, false)
    requires n < |buf| && k == Min(RING_BUFFER_SIZE, |buf| - n)
    ensures Act(p, ContinueWrite(w)) ==
            p.(queue := buf[n..n + k], writers := p.writers[w := Writer(buf, n + k, n + k == |buf|)])
  {
    assert [] + buf[n..n + k] == buf[n..n + k];
  }

  lemma ReadHalf(q: PipeState, r: nat, buf: seq<byte>, n: nat, k: nat)
    requires 0 < k && n + k <= |buf| && r in q.readers && q.readers[r] == Reader(|buf|, buf[..n], false)
    requires q.queue == buf[n..n + k]
    ensures Act(q, ContinueRead(r)) ==
            q.(queue := [], readers := q.readers[r := Reader(|buf|, buf[..n + k], n + k == |buf|)])
  {
    assert buf[..n] + buf[n..n + k] == buf[..n + k];
    assert q.queue[..k] == q.queue && q.queue[k..] == [];
  }

  /** Taking turns moves 32 bytes a round: after `(n + 31) / 32` rounds both calls have returned and the
      reader has exactly the writer's `n` bytes, whatever other calls are in progress. */
  lemma {:induction false} TurnsDeliver(p: PipeState, w: nat, r: nat, buf: seq<byte>, rounds: nat)
    requires Level(p, w, r, buf, 0) && buf != []
    ensures Level(Replay(p, Turns(w, r, rounds)), w, r, buf, Min(32 * rounds, |buf|))
    ensures rounds == (|buf| + 31) / 32 ==>
      var q := Replay(p, Turns(w, r, rounds));
      q.readers[r] == Reader(|buf|, buf, true) && q.writers[w] == Writer(buf, |buf|, true)
  {
    hide Act, Level;
    if rounds > 0 {
      TurnsDeliver(p, w, r, buf, rounds - 1);
      var q := Replay(p, Turns(w, r, rounds - 1));
      ReplayConcat(p, Turns(w, r, rounds - 1), [ContinueWrite(w), ContinueRead(r)]);
      TwoActions(q, ContinueWrite(w), ContinueRead(r));
      if 32 * (rounds - 1) < |buf| {
        OneRound(q, w, r, buf, 32 * (rounds - 1));
      } else {
        NoMore(q, w, r, buf);
      }
    }
    if rounds == (|buf| + 31) / 32 {
      AllThere(Replay(p, Turns(w, r, rounds)), w, r, buf);
    }
  }

  lemma TwoActions(p: PipeState, a: Action, b: Action)
    ensures Replay(p, [a, b]) == Act(Act(p, a), b)
  {
    hide Act;
    assert [a, b][..1] == [a] && [a][..0] == [];
    assert Replay(p, [a]) == Act(Replay(p, []), a);
  }

  lemma NoMore(p: PipeState, w: nat, r: nat, buf: seq<byte>)
    requires Level(p, w, r, buf, |buf|)
    ensures Act(Act(p, ContinueWrite(w)), ContinueRead(r)) == p
  {
  }

  lemma AllThere(p: PipeState, w: nat, r: nat, buf: seq<byte>)
    requires Level(p, w, r, buf, |buf|)
    ensures p.readers[r] == Reader(|buf|, buf, true) && p.writers[w] == Writer(buf, |buf|, true)
  {
    assert buf[..|buf|] == buf;
  }

  /** End of file: once the write ends are closed, a reader returns after at most two more iterations,
      with all it wants or all there is. */
  lemma EndOfFile(p: PipeState, r: nat)
    requires r in p.readers && !p.readers[r].done && |p.readers[r].got| <= p.readers[r].want
    requires forall w | w in p.writers :: p.writers[w].done
    ensures
      var q := Act(Act(Act(p, Close), ContinueRead(r)), ContinueRead(r));
      var k := Min(|p.queue|, p.readers[r].want - |p.readers[r].got|);
      q.readers[r] == Reader(p.readers[r].want, p.readers[r].got + p.queue[..k], true) && q.queue == p.queue[k..]
  {
  }

  /** The elements of `s` whose label is `id`, in order. */
  function Pick<T>(s: seq<T>, labels: seq<nat>, id: nat): seq<T>
    requires |s| == |labels|
  {
    if s == [] then [] else
      var n := |s| - 1;
      Pick(s[..n], labels[..n], id) + (if labels[n] == id then [s[n]] else [])
  }

  lemma PickSnoc<T>(s: seq<T>, labels: seq<nat>, x: T, l: nat, id: nat)
    requires |s| == |labels|
    ensures Pick(s + [x], labels + [l], id) == Pick(s, labels, id) + (if l == id then [x] else [])
  {
    assert (s + [x])[..|s|] == s && (labels + [l])[..|s|] == labels;
  }

  /** One pipe with all calls on it. `accepted` and `delivered` record, in order, every byte that
      went in and came out, with the call it came from or went to. */
  class PipeSystem {
    const ring: PipeRingBuffer
    var readers: map<nat, Reader>
    var writers: map<nat, Writer>
    var open: bool
    ghost var accepted: seq<byte>
    ghost var acceptedFrom: seq<nat>
    ghost var delivered: seq<byte>
    ghost var deliveredTo: seq<nat>

    /** First in, first out, for every call its own bytes, and short reads only at the end. */
    ghost predicate Valid()
      reads this, ring, ring.arr
    {
      && ring.Valid() && accepted == delivered + ring.Contents()
      && |acceptedFrom| == |accepted| && |deliveredTo| == |delivered|
      && (forall r | r in readers :: ReaderOk(r, readers[r]))
      && (forall w | w in writers :: WriterOk(w, writers[w]))
      && (forall l | l in deliveredTo :: l in readers) && (forall l | l in acceptedFrom :: l in writers)
      && (!open ==> forall w | w in writers :: writers[w].done)
    }

    ghost predicate ReaderOk(id: nat, r: Reader)
      reads this, ring, ring.arr
      requires ring.Valid() && |deliveredTo| == |delivered|
    {
      && r.got == Pick(delivered, deliveredTo, id) && |r.got| <= r.want
      && (!r.done ==> |r.got| < r.want || r.want == 0)
      && (r.done && |r.got| < r.want ==> !open && ring.Contents() == [])
    }

    ghost predicate WriterOk(id: nat, w: Writer)
      reads this
      requires |acceptedFrom| == |accepted|
    {
      && w.sent <= |w.buf| && w.buf[..w.sent] == Pick(accepted, acceptedFrom, id)
      && (!w.done ==> w.sent < |w.buf| || |w.buf| == 0)
      && (w.done ==> w.sent == |w.buf|)
    }

    ghost function State(): PipeState
      requires ring.Valid()
      reads this, ring, ring.arr
    {
      PipeState(ring.Contents(), readers, writers, open)
    }

    constructor ()
      ensures Valid() && fresh(ring) && fresh(ring.arr) && accepted == [] && delivered == []
      ensures State() == PipeState([], map[], map[], true)
    {
      ring := new PipeRingBuffer();
      readers, writers, open := map[], map[], true;
      accepted, acceptedFrom, delivered, deliveredTo := [], [], [], [];
    }

    /** The inner loop of `read`, once the ring is seen to hold `n` bytes. */
    method Drain(id: nat, n: nat)
      requires Valid() && id in readers && !readers[id].done && 0 < n == |ring.Contents()|
      modifies this, ring
      ensures Valid() && accepted == old(accepted) && open == old(open) && writers == old(writers) &&
          acceptedFrom == old(acceptedFrom)
      ensures old(delivered) <= delivered
      ensures State() == Reading(old(State()), id)
    {
      hide Valid, PipeRingBuffer.Contents;
      RingBound();
      ReaderFacts(id);
      ghost var all, r0 := ring.Contents(), readers[id];
      assert all[0..] == all && r0.got + all[..0] == r0.got && readers == readers[id := r0];
      var k := 0;
      while k < n
        invariant 0 <= k <= n && Valid() && ring.Valid() && ring.Contents() == all[k..]
        invariant accepted == old(accepted) && open == old(open) && writers == old(writers) &&
            acceptedFrom == old(acceptedFrom)
        invariant old(delivered) <= delivered && (k > 0 ==> |r0.got| + k < r0.want)
        invariant readers == old(readers)[id := Reader(r0.want, r0.got + all[..k], false)]
      {
        ReaderFacts(id);
        if |readers[id].got| == readers[id].want {
          ReturnEmpty(id);
          return;
        }
        DeliverByte(id);
        assert all[k..][1..] == all[k + 1..] && all[..k] + [all[k]] == all[..k + 1];
        assert r0.got + all[..k] + [all[k]] == r0.got + all[..k + 1];
        RingBound();
        if readers[id].done {
          return;
        }
        k := k + 1;
      }
      assert all[n..] == [] && all[..n] == all;
    }

    lemma ReaderFacts(id: nat)
      requires Valid() && id in readers && !readers[id].done
      ensures |readers[id].got| < readers[id].want || (readers[id].want == 0 && readers[id].got == [])
    {
      assert ReaderOk(id, readers[id]);
    }

    /** A `read` into an empty buffer returns as soon as the ring holds something. */
    method ReturnEmpty(id: nat)
      requires Valid() && id in readers && |readers[id].got| == readers[id].want
      modifies `readers
      ensures Valid() && readers == old(readers)[id := old(readers)[id].(done := true)]
    {
      hide PipeRingBuffer.Contents, PipeRingBuffer.Valid, Pick;
      assert ReaderOk(id, readers[id]);
      readers := readers[id := readers[id].(done := true)];
    }

    /** A `read` returns with what it has when nothing more can come. */
    method ReturnShort(id: nat)
      requires Valid() && id in readers && !open && ring.Contents() == []
      modifies `readers
      ensures Valid() && readers == old(readers)[id := old(readers)[id].(done := true)]
    {
      hide PipeRingBuffer.Contents, PipeRingBuffer.Valid, Pick;
      assert ReaderOk(id, readers[id]);
      readers := readers[id := readers[id].(done := true)];
    }

    /** One byte from the ring into the reader's buffer. */
    method DeliverByte(id: nat)
      requires Valid() && id in readers && !readers[id].done && |readers[id].got| < readers[id].want &&
          ring.Contents() != []
      modifies this, ring
      ensures Valid() && accepted == old(accepted) && open == old(open) && writers == old(writers) &&
          acceptedFrom == old(acceptedFrom)
      ensures old(delivered) <= delivered
      ensures ring.Contents() == old(ring.Contents())[1..]
      ensures readers == old(readers)[id := Reader(old(readers[id].want), old(readers[id].got + [ring.Contents()[0]]),
          |old(readers[id].got)| + 1 == old(readers[id].want))]
    {
      hide PipeRingBuffer.Contents, PipeRingBuffer.Valid, Pick;
      var b := ring.ReadByte();
      forall x: nat
        ensures Pick(delivered + [b], deliveredTo + [id], x) == Pick(delivered, deliveredTo, x) +
        (if id == x then [b] else []) {
        PickSnoc(delivered, deliveredTo, b, id, x);
      }
      delivered, deliveredTo := delivered + [b], deliveredTo + [id];
      var r := readers[id];
      var got := r.got + [b];
      readers := readers[id := Reader(r.want, got, |got| == r.want)];
    }

    /** One iteration of the loop of `read`: it yields the processor, returns, or goes round again. */
    method ReadStep(id: nat)
      requires Valid() && id in readers && !readers[id].done
      modifies this, ring
      ensures Valid() && accepted == old(accepted) && open == old(open) && old(delivered) <= delivered
      ensures |old(readers[id].got)| <= old(readers[id].want) && State() == Reading(old(State()), id)
      ensures id in readers && readers.Keys == old(readers.Keys) && readers[id].want == old(readers[id].want)
      ensures forall r | r in readers && r != id :: readers[r] == old(readers)[r]
      ensures |readers[id].got| == |old(readers[id].got)| +
          Min(|old(ring.Contents())|, readers[id].want - |old(readers[id].got)|)
      ensures readers[id].done <==> if old(ring.Contents()) == [] then !open else |readers[id].got| == readers[id].want
    {
      hide Valid, PipeRingBuffer.Contents;
      RingBound();
      ReaderFacts(id);
      var n := ring.AvailableRead();
      if n == 0 {
        if !open {
          ReturnShort(id);
        }
        return;
      }
      Drain(id, n);
    }

    /** One byte from the writer's buffer into the ring. */
    method AcceptByte(id: nat)
      requires Valid() && open && id in writers && !writers[id].done && writers[id].sent < |writers[id].buf|
      requires |ring.Contents()| < RING_BUFFER_SIZE
      modifies this, ring, ring.arr
      ensures Valid() && open && delivered == old(delivered) && readers == old(readers) && old(accepted) <= accepted
      ensures ring.Contents() == old(ring.Contents()) + [old(writers[id].buf[writers[id].sent])]
      ensures writers == old(writers)[id := Writer(old(writers[id].buf), old(writers[id].sent) + 1,
          old(writers[id].sent) + 1 == |old(writers[id].buf)|)]
    {
      hide PipeRingBuffer.Contents, PipeRingBuffer.Valid, Pick;
      var w := writers[id];
      var b := w.buf[w.sent];
      ring.WriteByte(b);
      forall x: nat
        ensures Pick(accepted + [b], acceptedFrom + [id], x) == Pick(accepted, acceptedFrom, x) +
        (if id == x then [b] else []) {
        PickSnoc(accepted, acceptedFrom, b, id, x);
      }
      assert w.buf[..w.sent + 1] == w.buf[..w.sent] + [b];
      accepted, acceptedFrom := accepted + [b], acceptedFrom + [id];
      writers := writers[id := Writer(w.buf, w.sent + 1, w.sent + 1 == |w.buf|)];
    }

    lemma WriterFacts(id: nat)
      requires Valid() && id in writers && !writers[id].done
      ensures writers[id].sent < |writers[id].buf| || (|writers[id].buf| == 0 && writers[id].sent == 0)
    {
      assert WriterOk(id, writers[id]);
    }

    lemma RingBound()
      requires Valid()
      ensures ring.Valid() && |ring.Contents()| <= RING_BUFFER_SIZE
    {
      assert ring.AvailableRead() <= RING_BUFFER_SIZE;
    }

    /** A `write` of nothing returns as soon as the ring has room. */
    method ReturnNothing(id: nat)
      requires Valid() && id in writers && writers[id].sent == |writers[id].buf|
      modifies `writers
      ensures Valid() && writers == old(writers)[id := old(writers)[id].(done := true)]
    {
      hide PipeRingBuffer.Contents, PipeRingBuffer.Valid, Pick;
      assert WriterOk(id, writers[id]);
      writers := writers[id := writers[id].(done := true)];
    }

    lemma Written(p: PipeState, id: nat, k: nat)
      requires ring.Valid() && id in p.writers && p.writers[id].sent + k <= |p.writers[id].buf| && p.open == open
      requires |p.queue| < RING_BUFFER_SIZE && readers == p.readers
      requires k == Min(RING_BUFFER_SIZE - |p.queue|, |p.writers[id].buf| - p.writers[id].sent)
      requires ring.Contents() == p.queue + p.writers[id].buf[p.writers[id].sent..p.writers[id].sent + k]
      requires writers == p.writers[id := Writer(p.writers[id].buf, p.writers[id].sent + k,
          p.writers[id].sent + k == |p.writers[id].buf|)]
      ensures State() == Writing(p, id)
    {
    }

    /** The inner loop of `write`, once the ring is seen to have room for `n` bytes. */
    method Fill(id: nat, n: nat)
      requires Valid() && open && id in writers && !writers[id].done
      requires 0 < n == RING_BUFFER_SIZE - |ring.Contents()|
      modifies this, ring, ring.arr
      ensures Valid() && open && delivered == old(delivered) && readers == old(readers) && old(accepted) <= accepted
      ensures old(writers[id].sent) <= |old(writers[id].buf)| && State() == Writing(old(State()), id)
    {
      hide Valid, PipeRingBuffer.Contents, Writing;
      RingBound();
      WriterFacts(id);
      ghost var p := State();
      ghost var all, w0 := ring.Contents(), writers[id];
      assert w0.buf[w0.sent..w0.sent] == [] && all + [] == all && writers == writers[id := w0];
      var k := 0;
      while k < n
        invariant 0 <= k <= n && Valid() && open && delivered == old(delivered) && readers == old(readers) &&
            old(accepted) <= accepted
        invariant w0.sent + k <= |w0.buf| && (k > 0 ==> w0.sent + k < |w0.buf|)
        invariant ring.Valid() && ring.Contents() == all + w0.buf[w0.sent..w0.sent + k]
        invariant writers == old(writers)[id := Writer(w0.buf, w0.sent + k, false)]
      {
        WriterFacts(id);
        if writers[id].sent == |writers[id].buf| {
          ReturnNothing(id);
          Written(p, id, 0);
          return;
        }
        AcceptByte(id);
        assert w0.buf[w0.sent..w0.sent + k] + [w0.buf[w0.sent + k]] == w0.buf[w0.sent..w0.sent + k + 1];
        assert all + w0.buf[w0.sent..w0.sent + k] + [w0.buf[w0.sent + k]] ==
               all + w0.buf[w0.sent..w0.sent + k + 1];
        RingBound();
        if writers[id].done {
          Written(p, id, k + 1);
          return;
        }
        k := k + 1;
      }
      Written(p, id, n);
    }

    /** One iteration of the loop of `write`: as much as the ring has room for. */
    method WriteStep(id: nat)
      requires Valid() && open && id in writers && !writers[id].done
      modifies this, ring, ring.arr
      ensures Valid() && open && delivered == old(delivered) && readers == old(readers) && old(accepted) <= accepted
      ensures old(writers[id].sent) <= |old(writers[id].buf)| && State() == Writing(old(State()), id)
      ensures id in writers && writers == old(writers)[id := writers[id]] && writers[id].buf == old(writers[id].buf)
      ensures writers[id].sent == old(writers[id].sent) +
          Min(RING_BUFFER_SIZE - |old(ring.Contents())|, |writers[id].buf| - old(writers[id].sent))
      ensures writers[id].done <==> |old(ring.Contents())| < RING_BUFFER_SIZE && writers[id].sent == |writers[id].buf|
    {
      hide Valid, PipeRingBuffer.Contents;
      RingBound();
      WriterFacts(id);
      var n := ring.AvailableWrite();
      if n == 0 {
        assert writers == writers[id := writers[id]];
        return;
      }
      Fill(id, n);
    }

    /** A new call of `read` under a number not used before. */
    method StartRead(id: nat, want: nat)
      requires Valid() && id !in readers
      modifies this`readers
      ensures Valid() && readers == old(readers)[id := Reader(want, [], false)]
    {
      hide PipeRingBuffer.Contents, PipeRingBuffer.Valid;
      PickNone(delivered, deliveredTo, id);
      readers := readers[id := Reader(want, [], false)];
    }

    /** A new call of `write`; the caller holds the write end, so it is open. */
    method StartWrite(id: nat, buf: seq<byte>)
      requires Valid() && id !in writers && open
      modifies this`writers
      ensures Valid() && writers == old(writers)[id := Writer(buf, 0, false)]
    {
      hide PipeRingBuffer.Contents, PipeRingBuffer.Valid;
      PickNone(accepted, acceptedFrom, id);
      writers := writers[id := Writer(buf, 0, false)];
    }

    /** The last write end is dropped; no call of `write` is in progress then. */
    method CloseWriteEnd()
      requires Valid() && forall w | w in writers :: writers[w].done
      modifies this`open
      ensures Valid() && !open
    {
      hide PipeRingBuffer.Contents, PipeRingBuffer.Valid, Pick;
      open := false;
    }

    /** One action, if it is possible. */
    method Perform(a: Action)
      requires Valid()
      modifies this, ring, ring.arr
      ensures Valid() && old(accepted) <= accepted && old(delivered) <= delivered && State() == Act(old(State()), a)
    {
      hide Valid, PipeRingBuffer.Contents, Reading, Writing;
      AmountsOk();
      match a {
        case BeginRead(id, want) => if id !in readers { StartRead(id, want); }
        case BeginWrite(id, buf) => if id !in writers && open { StartWrite(id, buf); }
        case ContinueRead(id) => if id in readers && !readers[id].done { ReadStep(id); }
        case ContinueWrite(id) => if open && id in writers && !writers[id].done { WriteStep(id); }
        case Close => if forall w | w in writers :: writers[w].done { CloseWriteEnd(); }
      }
      RingBound();
    }

    /** Every interleaving: an arbitrary schedule of starts, loop iterations and the close. Actions
        that are not possible when their turn comes are skipped. The calls and the bytes in between
        are those of the same schedule on a plain queue. */
    method Run(schedule: seq<Action>)
      requires Valid()
      modifies this, ring, ring.arr
      ensures Valid() && old(accepted) <= accepted && old(delivered) <= delivered
      ensures State() == Replay(old(State()), schedule)
    {
      hide Valid, PipeRingBuffer.Contents, Act;
      RingBound();
      assert schedule[..0] == [];
      for i := 0 to |schedule|
        invariant Valid() && ring.Valid() && old(accepted) <= accepted && old(delivered) <= delivered
        invariant State() == Replay(old(State()), schedule[..i])
      {
        assert schedule[..i + 1][..i] == schedule[..i];
        Perform(schedule[i]);
        RingBound();
      }
      assert schedule[..|schedule|] == schedule;
    }

    lemma AmountsOk()
      requires Valid()
      ensures forall r | r in readers :: |readers[r].got| <= readers[r].want
      ensures forall w | w in writers :: writers[w].sent <= |writers[w].buf|
    {
      forall r | r in readers ensures |readers[r].got| <= readers[r].want {
        assert ReaderOk(r, readers[r]);
      }
      forall w | w in writers ensures writers[w].sent <= |writers[w].buf| {
        assert WriterOk(w, writers[w]);
      }
    }

    /** What a finished call may rely on: a short read means that the write ends are closed and that
        every byte ever accepted has been delivered; a finished write has handed over its buffer. */
    lemma Finished()
      requires Valid()
      ensures forall r | r in readers && readers[r].done && |readers[r].got| < readers[r].want ::
          !open && delivered == accepted
      ensures forall w | w in writers && writers[w].done :: Pick(accepted, acceptedFrom, w) == writers[w].buf
      ensures |accepted| - |delivered| <= RING_BUFFER_SIZE
    {
      hide PipeRingBuffer.Contents, PipeRingBuffer.Valid, Pick;
      assert ring.AvailableRead() <= RING_BUFFER_SIZE;
      forall r | r in readers && readers[r].done && |readers[r].got| < readers[r].want
        ensures !open && delivered == accepted {
        assert ReaderOk(r, readers[r]);
      }
      forall w | w in writers && writers[w].done ensures Pick(accepted, acceptedFrom, w) == writers[w].buf {
        assert WriterOk(w, writers[w]);
        assert writers[w].buf[..|writers[w].buf|] == writers[w].buf;
      }
    }
  }

  lemma {:induction false} PickNone<T>(s: seq<T>, labels: seq<nat>, id: nat)
    requires |s| == |labels| && id !in labels
    ensures Pick(s, labels, id) == []
    decreases |s|
  {
    if s != [] {
      PickNone(s[..|s| - 1], labels[..|s| - 1], id);
    }
  }
}
