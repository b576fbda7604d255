/** A bounded queue shared by any number of producers and consumers. Each operation draws a
    ticket; a slot's sequence number tells which ticket may use it next: t while it is free for
    the writer of ticket t, t + 1 once that item is published, t + size once it has been read.

    Every atomic access is one step, steps of different threads interleave freely, and memory is
    sequentially consistent. The history fields of Ring record who drew each ticket and which
    values went in and came out; no step looks at them. */
module RingBuffer {
  import opened Arithmetic

  type Tid = int

  // Where a thread is inside an operation, between two atomic accesses
  datatype Pc<A> =
    | Idle
    | EnqWait(t: int, v: A)       // holds write ticket t, polls the slot
    | EnqStore(t: int, v: A)      // the slot is its own: about to write the data
    | EnqPublish(t: int, v: A)    // about to store seq = t + 1
    | DeqWait(t: int)             // holds read ticket t, polls the slot
    | DeqLoad(t: int)             // the item is its own: about to read the data
    | DeqFree(t: int, v: A)       // about to store seq = t + size
    | TryEnqLoad(v: A)            // about to load writeTicket
    | TryEnqPoll(t: int, v: A)    // about to load the slot's seq
    | TryEnqCas(t: int, v: A)     // saw seq == t, about to compare-exchange writeTicket
    | TryDeqLoad
    | TryDeqPoll(t: int)
    | TryDeqCas(t: int)

  datatype Ring<A> = Ring(
    size: int,
    seqs: seq<int>,
    data: seq<A>,
    w: int,
    r: int,
    pcs: map<Tid, Pc<A>>,
    writer: map<int, Tid>,
    reader: map<int, Tid>,
    written: map<int, A>,
    handed: map<int, A>)

  // ticket & (size - 1), for a size that is a power of two
  function Slot(t: int, size: int): (i: int)
    requires size > 0
    ensures 0 <= i < size
  {
    t % size
  }

  function PcOf<A>(s: Ring<A>, tid: Tid): Pc<A>
  {
    if tid in s.pcs then s.pcs[tid] else Idle
  }

  function Seq<A>(s: Ring<A>, t: int): int
    requires s.size > 0 && |s.seqs| == s.size
  {
    s.seqs[Slot(t, s.size)]
  }

  function Move<A>(s: Ring<A>, tid: Tid, pc: Pc<A>): (s': Ring<A>)
    ensures Shape(s) ==> Shape(s') && s'.size == s.size
  {
    s.(pcs := s.pcs[tid := pc])
  }

  function SetSeq<A>(s: Ring<A>, t: int, q: int): Ring<A>
    requires s.size > 0 && |s.seqs| == s.size
  {
    s.(seqs := s.seqs[Slot(t, s.size) := q])
  }

  predicate Shape<A>(s: Ring<A>)
  {
    s.size >= 1 && |s.seqs| == s.size && |s.data| == s.size && s.w >= 0 && s.r >= 0
  }

  function Init<A>(size: int, data: seq<A>): Ring<A>
    requires size >= 1 && |data| == size
  {
    Ring(size, seq(size, i => i), data, 0, 0, map[], map[], map[], map[], map[])
  }

  // ----- atomic steps

  datatype Action<A> =
    | StartEnq(v: A)        // writeTicket.fetch_add
    | StartDeq              // readTicket.fetch_add
    | StartTryEnq(v: A)
    | StartTryDeq
    | Go                    // the next atomic access of the operation under way
    | SpuriousCasFailure    // compare_exchange_weak may fail with the expected value present

  function DrawWrite<A>(s: Ring<A>, tid: Tid, pc: Pc<A>): (s': Ring<A>)
    ensures Shape(s) ==> Shape(s') && s'.size == s.size
  {
    Move(s.(w := s.w + 1, writer := s.writer[s.w := tid]), tid, pc)
  }

  function DrawRead<A>(s: Ring<A>, tid: Tid, pc: Pc<A>): (s': Ring<A>)
    ensures Shape(s) ==> Shape(s') && s'.size == s.size
  {
    Move(s.(r := s.r + 1, reader := s.reader[s.r := tid]), tid, pc)
  }

  function StoreData<A>(s: Ring<A>, tid: Tid, t: int, v: A): (s': Ring<A>)
    requires Shape(s)
    ensures Shape(s') && s'.size == s.size
  {
    Move(s.(data := s.data[Slot(t, s.size) := v], written := s.written[t := v]), tid, EnqPublish(t, v))
  }

  function Publish<A>(s: Ring<A>, tid: Tid, t: int): (s': Ring<A>)
    requires Shape(s)
    ensures Shape(s') && s'.size == s.size
  {
    Move(SetSeq(s, t, t + 1), tid, Idle)
  }

  function FreeSlot<A>(s: Ring<A>, tid: Tid, t: int, v: A): (s': Ring<A>)
    requires Shape(s)
    ensures Shape(s') && s'.size == s.size
  {
    Move(SetSeq(s, t, t + s.size).(handed := s.handed[t := v]), tid, Idle)
  }

  function GoStep<A>(s: Ring<A>, tid: Tid): (s': Ring<A>)
    requires Shape(s)
    ensures Shape(s') && s'.size == s.size
  {
    match PcOf(s, tid)
    case Idle => s
    case EnqWait(t, v) => if Seq(s, t) == t then Move(s, tid, EnqStore(t, v)) else s
    case EnqStore(t, v) => StoreData(s, tid, t, v)
    case EnqPublish(t, v) => Publish(s, tid, t)
    case DeqWait(t) => if Seq(s, t) == t + 1 then Move(s, tid, DeqLoad(t)) else s
    case DeqLoad(t) => Move(s, tid, DeqFree(t, s.data[Slot(t, s.size)]))
    case DeqFree(t, v) => FreeSlot(s, tid, t, v)
    case TryEnqLoad(v) => Move(s, tid, TryEnqPoll(s.w, v))
    case TryEnqPoll(t, v) =>
      var diff := Seq(s, t) - t;
      Move(s, tid, if diff == 0 then TryEnqCas(t, v) else if diff < 0 then Idle else TryEnqLoad(v))
    case TryEnqCas(t, v) =>
      if s.w == t then DrawWrite(s, tid, EnqStore(t, v)) else Move(s, tid, TryEnqPoll(s.w, v))
    case TryDeqLoad => Move(s, tid, TryDeqPoll(s.r))
    case TryDeqPoll(t) =>
      var diff := Seq(s, t) - (t + 1);
      Move(s, tid, if diff == 0 then TryDeqCas(t) else if diff < 0 then Idle else TryDeqLoad)
    case TryDeqCas(t) =>
      if s.r == t then DrawRead(s, tid, DeqLoad(t)) else Move(s, tid, TryDeqPoll(s.r))
  }

  // A thread starts an operation only when it is idle; an action that does not fit changes nothing
  function Step<A>(s: Ring<A>, tid: Tid, a: Action<A>): (s': Ring<A>)
    requires Shape(s)
    ensures Shape(s') && s'.size == s.size
  {
    match a
    case StartEnq(v) => if PcOf(s, tid) == Idle then DrawWrite(s, tid, EnqWait(s.w, v)) else s
    case StartDeq => if PcOf(s, tid) == Idle then DrawRead(s, tid, DeqWait(s.r)) else s
    case StartTryEnq(v) => if PcOf(s, tid) == Idle then Move(s, tid, TryEnqLoad(v)) else s
    case StartTryDeq => if PcOf(s, tid) == Idle then Move(s, tid, TryDeqLoad) else s
    case Go => GoStep(s, tid)
    case SpuriousCasFailure =>
      match PcOf(s, tid)
      case TryEnqCas(t, v) => Move(s, tid, TryEnqPoll(s.w, v))
      case TryDeqCas(t) => Move(s, tid, TryDeqPoll(s.r))
      case _ => s
  }

  // ----- the invariant

  ghost predicate SlotOk(size: int, i: int, q: int)
    requires size > 0
  {
    q >= 0 && (Slot(q, size) == i || (q >= 1 && Slot(q - 1, size) == i))
  }

  ghost predicate WriteDone<A>(s: Ring<A>, t: int)
    requires Shape(s)
  {
    Seq(s, t) >= t + 1
  }

  ghost predicate ReadDone<A>(s: Ring<A>, t: int)
    requires Shape(s)
  {
    Seq(s, t) >= t + s.size
  }

  predicate HoldsWrite<A>(pc: Pc<A>, t: int)
  {
    (pc.EnqWait? || pc.EnqStore? || pc.EnqPublish?) && pc.t == t
  }

  predicate HoldsRead<A>(pc: Pc<A>, t: int)
  {
    (pc.DeqWait? || pc.DeqLoad? || pc.DeqFree?) && pc.t == t
  }

  ghost predicate WriteOk<A>(s: Ring<A>, t: int)
    requires Shape(s)
  {
    && (t >= s.w ==> Seq(s, t) <= t && t !in s.written)
    && (t < s.w ==> t in s.writer)
    && (t < s.w && !WriteDone(s, t) ==> HoldsWrite(PcOf(s, s.writer[t]), t))
    && (WriteDone(s, t) ==> t in s.written)
    && (Seq(s, t) == t + 1 ==> s.data[Slot(t, s.size)] == s.written[t])
  }

  ghost predicate ReadOk<A>(s: Ring<A>, t: int)
    requires Shape(s)
  {
    && (t >= s.r ==> Seq(s, t) <= t + 1)
    && (t < s.r ==> t in s.reader)
    && (t < s.r && !ReadDone(s, t) ==> HoldsRead(PcOf(s, s.reader[t]), t))
    && (t in s.handed <==> t < s.r && ReadDone(s, t))
    && (t in s.handed ==> t in s.written && s.handed[t] == s.written[t])
  }

  ghost predicate PcOk<A>(s: Ring<A>, tid: Tid)
    requires Shape(s)
  {
    match PcOf(s, tid)
    case Idle => true
    case EnqWait(t, v) => 0 <= t < s.w && t in s.writer && s.writer[t] == tid && Seq(s, t) <= t && t !in s.written
    case EnqStore(t, v) => 0 <= t < s.w && t in s.writer && s.writer[t] == tid && Seq(s, t) == t && t !in s.written
    case EnqPublish(t, v) =>
      && 0 <= t < s.w && t in s.writer && s.writer[t] == tid && Seq(s, t) == t
      && t in s.written && s.written[t] == v && s.data[Slot(t, s.size)] == v
    case DeqWait(t) => 0 <= t < s.r && t in s.reader && s.reader[t] == tid && Seq(s, t) <= t + 1
    case DeqLoad(t) => 0 <= t < s.r && t in s.reader && s.reader[t] == tid && Seq(s, t) == t + 1
    case DeqFree(t, v) =>
      && 0 <= t < s.r && t in s.reader && s.reader[t] == tid && Seq(s, t) == t + 1
      && t in s.written && s.written[t] == v
    case TryEnqLoad(v) => true
    case TryEnqPoll(t, v) => 0 <= t <= s.w
    case TryEnqCas(t, v) => 0 <= t <= s.w && Seq(s, t) >= t
    case TryDeqLoad => true
    case TryDeqPoll(t) => 0 <= t <= s.r
    case TryDeqCas(t) => 0 <= t <= s.r && Seq(s, t) >= t + 1
  }

  ghost predicate Inv<A>(s: Ring<A>)
  {
    && Shape(s) && s.size >= 2
    && (forall i :: 0 <= i < s.size ==> SlotOk(s.size, i, s.seqs[i]))
    && (forall t :: t >= 0 ==> WriteOk(s, t))
    && (forall t :: t >= 0 ==> ReadOk(s, t))
    && (forall tid :: PcOk(s, tid))
  }

  // ----- arithmetic of slots

  lemma NextLap(t: int, size: int)
    requires size > 0
    ensures Slot(t + size, size) == Slot(t, size)
  {
    var q := t / size;
    SameRemainder(t, size);
    assert (q + 1) * size == q * size + size;
    UniqueRemainder(t + size, size, q + 1, t % size);
  }

  // Two tickets of one slot are at least a lap apart
  lemma LapApart(t: int, u: int, size: int)
    requires size > 0 && Slot(t, size) == Slot(u, size) && t < u
    ensures t + size <= u
  {
    var a, b := t / size, u / size;
    SameRemainder(t, size);
    SameRemainder(u, size);
    if b <= a {
      MulMonotone(b, a, size);
    } else {
      MulMonotone(a + 1, b, size);
      assert (a + 1) * size == a * size + size;
    }
  }

  lemma InitialSlots(size: int, i: int)
    requires 0 <= i < size
    ensures Slot(i, size) == i
  {
    UniqueRemainder(i, size, 0, i);
  }
}
