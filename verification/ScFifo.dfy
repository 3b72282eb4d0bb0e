/**
 src/systemc-2.3.3/src/sysc/communication/sc_fifo.h: a ring buffer whose reader and writer
 see each other's work only after the update phase (section 6.23 of IEEE 1666-2011).
 */
module ScFifo {
  import Modular
  import opened Wrappers

  /** The fields of the channel.  blank is the value T() put into a slot that has been read. */
  datatype Fifo<T> = Fifo(size: nat, buf: seq<T>, free: nat, ri: nat, wi: nat,
                          numReadable: int, numRead: int, numWritten: int, blank: T)

  function NumAvailable<T>(f: Fifo<T>): int {
    f.numReadable - f.numRead
  }

  function NumFree<T>(f: Fifo<T>): int {
    f.size - f.numReadable - f.numWritten
  }

  /** Slot k places after i in the ring. */
  function Slot(i: nat, k: nat, size: nat): nat {
    if i + k < size then i + k else i + k - size
  }

  function Used<T>(f: Fifo<T>): int {
    f.size - f.free
  }

  /** What every operation keeps; the counters account for every used slot. */
  predicate Valid<T>(f: Fifo<T>) {
    && |f.buf| == f.size > 0 && f.free <= f.size
    && f.ri < f.size && f.wi < f.size && f.wi == Slot(f.ri, Used(f), f.size)
    && Used(f) == f.numReadable - f.numRead + f.numWritten
    && 0 <= f.numRead <= f.numReadable && 0 <= f.numWritten && f.numReadable + f.numWritten <= f.size
  }

  // ---------- The operations on the fields ----------

  function BufRead<T>(f: Fifo<T>): (Fifo<T>, Option<T>)
    requires Valid(f)
  {
    if f.free == f.size then (f, None)
    else (f.(buf := f.buf[f.ri := f.blank], ri := (f.ri + 1) % f.size, free := f.free + 1), Some(f.buf[f.ri]))
  }

  function BufWrite<T>(f: Fifo<T>, v: T): (Fifo<T>, bool)
    requires Valid(f)
  {
    if f.free == 0 then (f, false)
    else (f.(buf := f.buf[f.wi := v], wi := (f.wi + 1) % f.size, free := f.free - 1), true)
  }

  function NbRead<T>(f: Fifo<T>): (Fifo<T>, Option<T>)
    requires Valid(f)
  {
    if NumAvailable(f) == 0 then (f, None)
    else
      var r := BufRead(f);
      if r.1.Some? then (r.0.(numRead := r.0.numRead + 1), r.1) else r
  }

  function NbWrite<T>(f: Fifo<T>, v: T): (Fifo<T>, bool)
    requires Valid(f)
  {
    if NumFree(f) == 0 then (f, false)
    else
      var r := BufWrite(f, v);
      if r.1 then (r.0.(numWritten := r.0.numWritten + 1), true) else r
  }

  function Update<T>(f: Fifo<T>): Fifo<T> {
    f.(numReadable := f.size - f.free, numRead := 0, numWritten := 0)
  }

  lemma NextSlot(i: nat, size: nat)
    requires i < size
    ensures (i + 1) % size == Slot(i, 1, size) < size
  {
    if i + 1 < size { Modular.ModUnique(i + 1, 0, i + 1, size); } else { Modular.ModUnique(size, 1, 0, size); }
  }

  /** A read is refused exactly when nothing is available, so the assertion of the blocking read holds. */
  lemma ReadSucceeds<T>(f: Fifo<T>)
    requires Valid(f)
    ensures NbRead(f).1.Some? <==> NumAvailable(f) != 0
    ensures Valid(NbRead(f).0)
  {
    NextSlot(f.ri, f.size);
  }

  /** A write is refused exactly when there is no room, so the assertion of the blocking write holds. */
  lemma WriteSucceeds<T>(f: Fifo<T>, v: T)
    requires Valid(f)
    ensures NbWrite(f, v).1 <==> NumFree(f) != 0
    ensures Valid(NbWrite(f, v).0)
  {
    NextSlot(f.wi, f.size);
  }

  // ---------- The queue it refines ----------

  /** The samples in order, how many of them may be read, and how many more may be written. */
  datatype Queue<T> = Queue(items: seq<T>, available: int, room: int, size: nat)

  function Contents<T>(f: Fifo<T>): seq<T>
    requires Valid(f)
  {
    seq(Used(f), k requires 0 <= k < Used(f) => f.buf[Slot(f.ri, k, f.size)])
  }

  function Abstract<T>(f: Fifo<T>): Queue<T>
    requires Valid(f)
  {
    Queue(Contents(f), NumAvailable(f), NumFree(f), f.size)
  }

  datatype Op<T> = Read | Write(value: T) | Refresh

  /** What an operation answers. */
  datatype Answer<T> = Got(sample: Option<T>) | Took(accepted: bool) | Quiet

  function QueueStep<T>(q: Queue<T>, op: Op<T>): (Queue<T>, Answer<T>) {
    match op
    case Read =>
      if q.available == 0 || q.items == [] then (q, Got(None))
      else (q.(items := q.items[1..], available := q.available - 1), Got(Some(q.items[0])))
    case Write(v) =>
      if q.room == 0 then (q, Took(false))
      else (q.(items := q.items + [v], room := q.room - 1), Took(true))
    case Refresh => (q.(available := |q.items|, room := q.size - |q.items|), Quiet)
  }

  function FifoStep<T>(f: Fifo<T>, op: Op<T>): (Fifo<T>, Answer<T>)
    requires Valid(f)
  {
    match op
    case Read => (NbRead(f).0, Got(NbRead(f).1))
    case Write(v) => (NbWrite(f, v).0, Took(NbWrite(f, v).1))
    case Refresh => (Update(f), Quiet)
  }

  lemma StepValid<T>(f: Fifo<T>, op: Op<T>)
    requires Valid(f)
    ensures Valid(FifoStep(f, op).0)
  {
    ReadSucceeds(f);
    if op.Write? { WriteSucceeds(f, op.value); }
  }

  lemma ReadRefines<T>(f: Fifo<T>)
    requires Valid(f)
    ensures Valid(NbRead(f).0)
    ensures (Abstract(NbRead(f).0), Got(NbRead(f).1)) == QueueStep(Abstract(f), Read)
  {
    ReadSucceeds(f);
    NextSlot(f.ri, f.size);
    if NumAvailable(f) != 0 {
      var g := NbRead(f).0;
      assert |Contents(f)| > 0;
      assert Contents(g) == Contents(f)[1..];
    }
  }

  lemma WriteRefines<T>(f: Fifo<T>, v: T)
    requires Valid(f)
    ensures Valid(NbWrite(f, v).0)
    ensures (Abstract(NbWrite(f, v).0), Took(NbWrite(f, v).1)) == QueueStep(Abstract(f), Write(v))
  {
    WriteSucceeds(f, v);
    NextSlot(f.wi, f.size);
    if NumFree(f) != 0 {
      assert Contents(NbWrite(f, v).0) == Contents(f) + [v];
    }
  }

  /** One operation on the ring is that operation on the queue, with the same answer. */
  lemma StepRefines<T>(f: Fifo<T>, op: Op<T>)
    requires Valid(f)
    ensures Valid(FifoStep(f, op).0)
    ensures (Abstract(FifoStep(f, op).0), FifoStep(f, op).1) == QueueStep(Abstract(f), op)
  {
    StepValid(f, op);
    match op
    case Read => ReadRefines(f);
    case Write(v) => WriteRefines(f, v);
    case Refresh => assert Contents(Update(f)) == Contents(f);
  }

  function FifoRun<T>(f: Fifo<T>, ops: seq<Op<T>>): (r: (Fifo<T>, seq<Answer<T>>))
    requires Valid(f)
    ensures Valid(r.0)
    decreases |ops|
  {
    if ops == [] then (f, [])
    else
      StepValid(f, ops[0]);
      var s := FifoStep(f, ops[0]);
      var r := FifoRun(s.0, ops[1..]);
      (r.0, [s.1] + r.1)
  }

  function QueueRun<T>(q: Queue<T>, ops: seq<Op<T>>): (Queue<T>, seq<Answer<T>>)
    decreases |ops|
  {
    if ops == [] then (q, [])
    else
      var s := QueueStep(q, ops[0]);
      var r := QueueRun(s.0, ops[1..]);
      (r.0, [s.1] + r.1)
  }

  /** Under every sequence of operations the ring behaves as the queue. */
  lemma {:induction false} RunRefines<T>(f: Fifo<T>, ops: seq<Op<T>>)
    requires Valid(f)
    ensures (Abstract(FifoRun(f, ops).0), FifoRun(f, ops).1) == QueueRun(Abstract(f), ops)
    decreases |ops|
  {
    hide Valid, Abstract, FifoStep, QueueStep;
    if ops != [] {
      StepRefines(f, ops[0]);
      RunRefines(FifoStep(f, ops[0]).0, ops[1..]);
    }
  }

  // ---------- What a whole run keeps ----------

  /** The values an operation has put in, and those it has taken out. */
  function PutIn<T>(op: Op<T>, answer: Answer<T>): seq<T> {
    if op.Write? && answer == Took(true) then [op.value] else []
  }

  function TakenOut<T>(answer: Answer<T>): seq<T> {
    if answer.Got? && answer.sample.Some? then [answer.sample.value] else []
  }

  function AllPutIn<T>(ops: seq<Op<T>>, answers: seq<Answer<T>>): seq<T>
    requires |ops| == |answers|
  {
    if ops == [] then [] else PutIn(ops[0], answers[0]) + AllPutIn(ops[1..], answers[1..])
  }

  function AllTakenOut<T>(answers: seq<Answer<T>>): seq<T> {
    if answers == [] then [] else TakenOut(answers[0]) + AllTakenOut(answers[1..])
  }

  lemma StepConserves<T>(f: Fifo<T>, op: Op<T>)
    requires Valid(f)
    ensures Valid(FifoStep(f, op).0)
    ensures Contents(f) + PutIn(op, FifoStep(f, op).1) == TakenOut(FifoStep(f, op).1) + Contents(FifoStep(f, op).0)
  {
    StepRefines(f, op);
    hide Valid, FifoStep;
  }

  /** Nothing is lost, doubled or reordered: what came out and what is left is what was there and what came in. */
  lemma {:induction false} RunConserves<T>(f: Fifo<T>, ops: seq<Op<T>>)
    requires Valid(f)
    ensures |FifoRun(f, ops).1| == |ops|
    ensures Contents(f) + AllPutIn(ops, FifoRun(f, ops).1) == AllTakenOut(FifoRun(f, ops).1) + Contents(FifoRun(f, ops).0)
    decreases |ops|
  {
    hide Valid, FifoStep, PutIn, TakenOut, Contents;
    if ops != [] {
      StepConserves(f, ops[0]);
      var s := FifoStep(f, ops[0]);
      var r := FifoRun(s.0, ops[1..]);
      RunConserves(s.0, ops[1..]);
      assert FifoRun(f, ops).1[1..] == r.1;
      Regroup(Contents(f), PutIn(ops[0], s.1), AllPutIn(ops[1..], r.1),
              TakenOut(s.1), Contents(s.0), AllTakenOut(r.1), Contents(r.0));
    }
  }

  lemma Regroup<T>(before: seq<T>, x: seq<T>, xs: seq<T>, y: seq<T>, between: seq<T>, ys: seq<T>, after: seq<T>)
    requires before + x == y + between && between + xs == ys + after
    ensures before + (x + xs) == (y + ys) + after
  {
    assert before + (x + xs) == (before + x) + xs == y + (between + xs) == (y + ys) + after;
  }

  /** Every slot that holds no sample is blank. */
  ghost predicate BlankOutside<T>(f: Fifo<T>)
    requires Valid(f)
  {
    forall k: nat {:trigger Slot(f.ri, k, f.size)} :: Used(f) <= k < f.size ==> f.buf[Slot(f.ri, k, f.size)] == f.blank
  }

  lemma ReadBlanks<T>(f: Fifo<T>)
    requires Valid(f) && BlankOutside(f)
    ensures Valid(NbRead(f).0) && BlankOutside(NbRead(f).0)
  {
    ReadSucceeds(f);
    NextSlot(f.ri, f.size);
    var g := NbRead(f).0;
    if NumAvailable(f) != 0 {
      forall k: nat | Used(g) <= k < g.size ensures g.buf[Slot(g.ri, k, g.size)] == g.blank {
        if k == g.size - 1 {
          assert Slot(g.ri, k, g.size) == f.ri;
        } else {
          assert Slot(g.ri, k, g.size) == Slot(f.ri, k + 1, f.size);
        }
      }
    }
  }

  lemma WriteKeepsBlank<T>(f: Fifo<T>, v: T)
    requires Valid(f) && BlankOutside(f)
    ensures Valid(NbWrite(f, v).0) && BlankOutside(NbWrite(f, v).0)
  {
    WriteSucceeds(f, v);
    var g := NbWrite(f, v).0;
    forall k: nat | Used(g) <= k < g.size ensures g.buf[Slot(g.ri, k, g.size)] == g.blank {
      assert Slot(f.ri, k, f.size) != f.wi || g == f;
    }
  }

  /** A sample that has been read is not held on to: in every state of a run free slots are blank. */
  lemma {:induction false} RunKeepsBlank<T>(f: Fifo<T>, ops: seq<Op<T>>)
    requires Valid(f) && BlankOutside(f)
    ensures BlankOutside(FifoRun(f, ops).0)
    decreases |ops|
  {
    if ops != [] {
      match ops[0]
      case Read => ReadBlanks(f);
      case Write(v) => WriteKeepsBlank(f, v);
      case Refresh => assert BlankOutside(Update(f));
    }
    hide Valid, BlankOutside;
    if ops != [] { RunKeepsBlank(FifoStep(f, ops[0]).0, ops[1..]); }
  }

  // ---------- Reader and writer within one evaluate phase ----------

  /** A read and a write in either order: same answers, same fields. */
  lemma Commute<T>(f: Fifo<T>, v: T)
    requires Valid(f)
    ensures Valid(NbRead(f).0) && Valid(NbWrite(f, v).0)
    ensures NbRead(NbWrite(f, v).0).1 == NbRead(f).1
    ensures NbWrite(NbRead(f).0, v).1 == NbWrite(f, v).1
    ensures NbRead(NbWrite(f, v).0).0 == NbWrite(NbRead(f).0, v).0
  {
    ReadSucceeds(f);
    WriteSucceeds(f, v);
    if NumAvailable(f) != 0 && NumFree(f) != 0 {
      assert f.ri != f.wi;
      assert f.buf[f.ri := f.blank][f.wi := v] == f.buf[f.wi := v][f.ri := f.blank];
    }
  }

  /** What the reader gets and what the writer is told, kept apart. */
  datatype Outcome<T> = Outcome(last: Fifo<T>, got: seq<Option<T>>, took: seq<bool>)

  /** One evaluate phase: None stands for a read, Some(v) for a write of v. */
  function Phase<T>(f: Fifo<T>, calls: seq<Option<T>>): Outcome<T>
    requires Valid(f)
    decreases |calls|
  {
    if calls == [] then Outcome(f, [], [])
    else if calls[0].None? then
      ReadSucceeds(f);
      var r := Phase(NbRead(f).0, calls[1..]);
      r.(got := [NbRead(f).1] + r.got)
    else
      WriteSucceeds(f, calls[0].value);
      var r := Phase(NbWrite(f, calls[0].value).0, calls[1..]);
      r.(took := [NbWrite(f, calls[0].value).1] + r.took)
  }

  function Reads<T>(calls: seq<Option<T>>): nat {
    if calls == [] then 0 else (if calls[0].None? then 1 else 0) + Reads(calls[1..])
  }

  function Writes<T>(calls: seq<Option<T>>): seq<T> {
    if calls == [] then [] else (if calls[0].None? then [] else [calls[0].value]) + Writes(calls[1..])
  }

  /** All reads first, then all writes. */
  function ReaderFirst<T>(f: Fifo<T>, readCount: nat, writes: seq<T>): Outcome<T>
    requires Valid(f)
    decreases readCount, |writes|
  {
    if readCount > 0 then
      ReadSucceeds(f);
      var r := ReaderFirst(NbRead(f).0, readCount - 1, writes);
      r.(got := [NbRead(f).1] + r.got)
    else if writes == [] then Outcome(f, [], [])
    else
      WriteSucceeds(f, writes[0]);
      var r := ReaderFirst(NbWrite(f, writes[0]).0, 0, writes[1..]);
      r.(took := [NbWrite(f, writes[0]).1] + r.took)
  }

  /** A write in front can be moved behind all reads. */
  lemma {:induction false} WriteMovesBack<T>(f: Fifo<T>, v: T, readCount: nat, writes: seq<T>)
    requires Valid(f)
    ensures Valid(NbWrite(f, v).0)
    ensures var r := ReaderFirst(NbWrite(f, v).0, readCount, writes);
            ReaderFirst(f, readCount, [v] + writes) == r.(took := [NbWrite(f, v).1] + r.took)
    decreases readCount
  {
    WriteSucceeds(f, v);
    if readCount == 0 {
      assert ([v] + writes)[1..] == writes;
    } else {
      Commute(f, v);
      WriteMovesBack(NbRead(f).0, v, readCount - 1, writes);
    }
  }

  lemma {:induction false} PhaseNormal<T>(f: Fifo<T>, calls: seq<Option<T>>)
    requires Valid(f)
    ensures Phase(f, calls) == ReaderFirst(f, Reads(calls), Writes(calls))
    decreases |calls|
  {
    if calls != [] {
      if calls[0].None? {
        assert Writes(calls) == Writes(calls[1..]);
        ReadSucceeds(f);
        PhaseNormal(NbRead(f).0, calls[1..]);
      } else {
        WriteSucceeds(f, calls[0].value);
        PhaseNormal(NbWrite(f, calls[0].value).0, calls[1..]);
        WriteMovesBack(f, calls[0].value, Reads(calls[1..]), Writes(calls[1..]));
      }
    }
  }

  /** Every interleaving of the same reads and the same writes gives the same answers and fields. */
  lemma Confluence<T>(f: Fifo<T>, calls: seq<Option<T>>, other: seq<Option<T>>)
    requires Valid(f) && Reads(calls) == Reads(other) && Writes(calls) == Writes(other)
    ensures Phase(f, calls) == Phase(f, other)
  {
    PhaseNormal(f, calls);
    PhaseNormal(f, other);
  }

  // ---------- Blocked processes ----------

  /** Within a phase an empty channel stays empty for the reader, and a full one full for the writer. */
  lemma {:induction false} PhaseKeepsBlocked<T>(f: Fifo<T>, calls: seq<Option<T>>)
    requires Valid(f)
    ensures var g := Phase(f, calls).last;
            Valid(g) && (NumAvailable(f) == 0 ==> NumAvailable(g) == 0) && (NumFree(f) == 0 ==> NumFree(g) == 0)
    decreases |calls|
  {
    if calls != [] {
      if calls[0].None? {
        ReadSucceeds(f);
        PhaseKeepsBlocked(NbRead(f).0, calls[1..]);
      } else {
        WriteSucceeds(f, calls[0].value);
        PhaseKeepsBlocked(NbWrite(f, calls[0].value).0, calls[1..]);
      }
    }
  }

  /**
   A blocked reader or writer is notified by the update exactly when it can go on afterwards:
   no wake-up is lost and none is in vain.
   */
  lemma WakeUp<T>(f: Fifo<T>, calls: seq<Option<T>>)
    requires Valid(f)
    ensures var g := Phase(f, calls).last;
            && (NumAvailable(f) == 0 ==> (g.numWritten > 0 <==> NumAvailable(Update(g)) != 0))
            && (NumFree(f) == 0 ==> (g.numRead > 0 <==> NumFree(Update(g)) != 0))
  {
    hide Phase;
    PhaseKeepsBlocked(f, calls);
  }

  // ---------- The channel itself ----------

  class Channel<T> {
    var size: nat
    var buf: array<T>
    var free: nat
    var ri: nat
    var wi: nat
    var numReadable: int
    var numRead: int
    var numWritten: int
    const blank: T

    function Snapshot(): Fifo<T>
      reads this, buf
    {
      Fifo(size, buf[..], free, ri, wi, numReadable, numRead, numWritten, blank)
    }

    /** init for a positive size. */
    constructor (n: nat, blank: T)
      requires n > 0
      ensures Valid(Snapshot()) && fresh(buf) && BlankOutside(Snapshot())
      ensures Contents(Snapshot()) == [] && NumAvailable(Snapshot()) == 0 && NumFree(Snapshot()) == n
    {
      size, free, ri, wi := n, n, 0, 0;
      buf := new T[n](_ => blank);
      numReadable, numRead, numWritten := 0, 0, 0;
      this.blank := blank;
    }

    method TakeFromBuffer() returns (r: Option<T>)
      requires Valid(Snapshot())
      modifies this, buf
      ensures buf == old(buf) && (Snapshot(), r) == BufRead(old(Snapshot()))
    {
      if free == size {
        return None;
      }
      r := Some(buf[ri]);
      NextSlot(ri, size);
      buf[ri] := blank;
      ri := (ri + 1) % size;
      free := free + 1;
    }

    method PutIntoBuffer(v: T) returns (ok: bool)
      requires Valid(Snapshot())
      modifies this, buf
      ensures buf == old(buf) && (Snapshot(), ok) == BufWrite(old(Snapshot()), v)
    {
      if free == 0 {
        return false;
      }
      NextSlot(wi, size);
      buf[wi] := v;
      wi := (wi + 1) % size;
      free := free - 1;
      ok := true;
    }

    method NonBlockingRead() returns (r: Option<T>)
      requires Valid(Snapshot())
      modifies this, buf
      ensures buf == old(buf) && Valid(Snapshot())
      ensures old(BlankOutside(Snapshot())) ==> BlankOutside(Snapshot())
      ensures (Abstract(Snapshot()), Got(r)) == QueueStep(Abstract(old(Snapshot())), Read)
      ensures (Snapshot(), r) == NbRead(old(Snapshot()))
    {
      ReadRefines(Snapshot());
      if BlankOutside(Snapshot()) { ReadBlanks(Snapshot()); }
      hide BlankOutside, Slot, Valid, Abstract, QueueStep;
      if numReadable - numRead == 0 {
        return None;
      }
      r := TakeFromBuffer();
      if r.Some? {
        numRead := numRead + 1;
      }
    }

    method NonBlockingWrite(v: T) returns (ok: bool)
      requires Valid(Snapshot())
      modifies this, buf
      ensures buf == old(buf) && Valid(Snapshot())
      ensures old(BlankOutside(Snapshot())) ==> BlankOutside(Snapshot())
      ensures (Abstract(Snapshot()), Took(ok)) == QueueStep(Abstract(old(Snapshot())), Write(v))
      ensures (Snapshot(), ok) == NbWrite(old(Snapshot()), v)
    {
      WriteRefines(Snapshot(), v);
      if BlankOutside(Snapshot()) { WriteKeepsBlank(Snapshot(), v); }
      hide BlankOutside, Slot, Valid, Abstract, QueueStep;
      if size - numReadable - numWritten == 0 {
        return false;
      }
      ok := PutIntoBuffer(v);
      if ok {
        numWritten := numWritten + 1;
      }
    }

    /** The update phase; the two events it notifies are returned as flags. */
    method UpdatePhase() returns (dataRead: bool, dataWritten: bool)
      requires Valid(Snapshot())
      modifies this
      ensures buf == old(buf) && Snapshot() == Update(old(Snapshot())) && Valid(Snapshot())
      ensures NumAvailable(Snapshot()) == |Contents(Snapshot())|
      ensures dataRead == (old(numRead) > 0) && dataWritten == (old(numWritten) > 0)
    {
      dataRead := numRead > 0;
      dataWritten := numWritten > 0;
      numReadable := size - free;
      numRead := 0;
      numWritten := 0;
    }
  }
}
