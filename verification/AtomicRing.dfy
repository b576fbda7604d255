/** The ring's storage and the atomic accesses its operations are made of, one method each. Every
    method is one step of the machine in RingBuffer.dfy, so any interleaving of calls by any
    threads is one of its runs. A thread's locals (ticket, data) are passed in and out. */
module AtomicRings {
  import opened RingBuffer
  import opened RingSafety

  class AtomicRingBuffer<A(0)> {
    const size: nat
    const seqs: array<int>
    const data: array<A>
    var writeTicket: int
    var readTicket: int

    ghost var pcs: map<Tid, Pc<A>>
    ghost var writer: map<int, Tid>
    ghost var reader: map<int, Tid>
    ghost var written: map<int, A>
    ghost var handed: map<int, A>

    ghost function State(): Ring<A>
      reads this, seqs, data
    {
      Ring(size, seqs[..], data[..], writeTicket, readTicket, pcs, writer, reader, written, handed)
    }

    ghost predicate Valid()
      reads this, seqs, data
    {
      (seqs as object) != data && Inv(State())
    }

    constructor (size: nat)
      requires size >= 2
      ensures Valid() && fresh(seqs) && fresh(data)
      ensures data.Length == size && State() == Init(size, data[..])
    {
      this.size := size;
      seqs := new int[size](i => i);
      data := new A[size];
      writeTicket, readTicket := 0, 0;
      pcs, writer, reader, written, handed := map[], map[], map[], map[], map[];
      new;
      assert seqs[..] == seq(size, i => i);
      InitInv(size, data[..]);
    }

    function Index(ticket: int): (i: int)
      requires size > 0
      ensures 0 <= i < size
    {
      Slot(ticket, size)
    }

    // ----- enqueue

    method TakeWriteTicket(tid: Tid, v: A) returns (ticket: int)
      requires Valid() && PcOf(State(), tid) == Idle
      modifies this
      ensures Valid() && State() == Step(old(State()), tid, StartEnq(v))
      ensures PcOf(State(), tid) == EnqWait(ticket, v)
    {
      StepKeeps(State(), tid, StartEnq(v));
      ticket := writeTicket;
      writeTicket := writeTicket + 1;
      pcs, writer := pcs[tid := EnqWait(ticket, v)], writer[ticket := tid];
    }

    method PollForWrite(tid: Tid, ticket: int, v: A) returns (ready: bool)
      requires Valid() && PcOf(State(), tid) == EnqWait(ticket, v)
      modifies this`pcs
      ensures Valid() && State() == Step(old(State()), tid, Go)
      ensures PcOf(State(), tid) == if ready then EnqStore(ticket, v) else EnqWait(ticket, v)
    {
      StepKeeps(State(), tid, Go);
      ready := seqs[Index(ticket)] == ticket;
      if ready {
        pcs := pcs[tid := EnqStore(ticket, v)];
      }
    }

    method StoreItem(tid: Tid, ticket: int, v: A)
      requires Valid() && PcOf(State(), tid) == EnqStore(ticket, v)
      modifies this`pcs, this`written, data
      ensures Valid() && State() == Step(old(State()), tid, Go)
    {
      assert Shape(State());
      StepKeeps(State(), tid, Go);
      hide Slot;
      hide Inv;
      ghost var items := data[..];
      data[Index(ticket)] := v;
      assert data[..] == items[Index(ticket) := v];
      pcs, written := pcs[tid := EnqPublish(ticket, v)], written[ticket := v];
    }

    method PublishItem(tid: Tid, ticket: int, ghost v: A)
      requires Valid() && PcOf(State(), tid) == EnqPublish(ticket, v)
      modifies this`pcs, seqs
      ensures Valid() && State() == Step(old(State()), tid, Go)
    {
      assert Shape(State());
      StepKeeps(State(), tid, Go);
      hide Slot;
      hide Inv;
      ghost var numbers := seqs[..];
      seqs[Index(ticket)] := ticket + 1;
      assert seqs[..] == numbers[Index(ticket) := ticket + 1];
      pcs := pcs[tid := Idle];
    }

    // ----- dequeue

    method TakeReadTicket(tid: Tid) returns (ticket: int)
      requires Valid() && PcOf(State(), tid) == Idle
      modifies this
      ensures Valid() && State() == Step(old(State()), tid, StartDeq)
      ensures PcOf(State(), tid) == DeqWait(ticket)
    {
      StepKeeps(State(), tid, StartDeq);
      ticket := readTicket;
      readTicket := readTicket + 1;
      pcs, reader := pcs[tid := DeqWait(ticket)], reader[ticket := tid];
    }

    method PollForRead(tid: Tid, ticket: int) returns (ready: bool)
      requires Valid() && PcOf(State(), tid) == DeqWait(ticket)
      modifies this`pcs
      ensures Valid() && State() == Step(old(State()), tid, Go)
      ensures PcOf(State(), tid) == if ready then DeqLoad(ticket) else DeqWait(ticket)
    {
      StepKeeps(State(), tid, Go);
      ready := seqs[Index(ticket)] == ticket + 1;
      if ready {
        pcs := pcs[tid := DeqLoad(ticket)];
      }
    }

    method LoadItem(tid: Tid, ticket: int) returns (v: A)
      requires Valid() && PcOf(State(), tid) == DeqLoad(ticket)
      modifies this`pcs
      ensures Valid() && State() == Step(old(State()), tid, Go)
      ensures PcOf(State(), tid) == DeqFree(ticket, v) && ticket in written && v == written[ticket]
    {
      StepKeeps(State(), tid, Go);
      v := data[Index(ticket)];
      pcs := pcs[tid := DeqFree(ticket, v)];
      assert PcOk(State(), tid);
    }

    method FreeItem(tid: Tid, ticket: int, ghost v: A)
      requires Valid() && PcOf(State(), tid) == DeqFree(ticket, v)
      modifies this`pcs, this`handed, seqs
      ensures Valid() && State() == Step(old(State()), tid, Go)
    {
      assert Shape(State());
      StepKeeps(State(), tid, Go);
      hide Slot;
      hide Inv;
      ghost var numbers := seqs[..];
      seqs[Index(ticket)] := ticket + size;
      assert seqs[..] == numbers[Index(ticket) := ticket + size];
      pcs, handed := pcs[tid := Idle], handed[ticket := v];
    }

    // ----- tryEnqueue and tryDequeue

    method LoadWriteTicket(tid: Tid, ghost v: A) returns (ticket: int)
      requires Valid() && PcOf(State(), tid) == TryEnqLoad(v)
      modifies this`pcs
      ensures Valid() && State() == Step(old(State()), tid, Go)
      ensures PcOf(State(), tid) == TryEnqPoll(ticket, v)
    {
      StepKeeps(State(), tid, Go);
      ticket := writeTicket;
      pcs := pcs[tid := TryEnqPoll(ticket, v)];
    }

    // The sign of seq - ticket: zero to try the exchange, negative when full, positive to reload
    method PollWriteSlot(tid: Tid, ticket: int, ghost v: A) returns (diff: int)
      requires Valid() && PcOf(State(), tid) == TryEnqPoll(ticket, v)
      modifies this`pcs
      ensures Valid() && State() == Step(old(State()), tid, Go)
      ensures PcOf(State(), tid) == if diff == 0 then TryEnqCas(ticket, v) else if diff < 0 then Idle else TryEnqLoad(v)
    {
      StepKeeps(State(), tid, Go);
      diff := seqs[Index(ticket)] - ticket;
      pcs := pcs[tid := if diff == 0 then TryEnqCas(ticket, v) else if diff < 0 then Idle else TryEnqLoad(v)];
    }

    method ExchangeWriteTicket(tid: Tid, ticket: int, ghost v: A, spurious: bool) returns (won: bool, ticket': int)
      requires Valid() && PcOf(State(), tid) == TryEnqCas(ticket, v)
      modifies this`writeTicket, this`pcs, this`writer
      ensures Valid() && State() == Step(old(State()), tid, if spurious then SpuriousCasFailure else Go)
      ensures PcOf(State(), tid) == if won then EnqStore(ticket, v) else TryEnqPoll(ticket', v)
    {
      StepKeeps(State(), tid, if spurious then SpuriousCasFailure else Go);
      ticket' := writeTicket;
      won := !spurious && writeTicket == ticket;
      if won {
        writeTicket := ticket + 1;
        pcs, writer := pcs[tid := EnqStore(ticket, v)], writer[ticket := tid];
      } else {
        pcs := pcs[tid := TryEnqPoll(ticket', v)];
      }
    }

    method LoadReadTicket(tid: Tid) returns (ticket: int)
      requires Valid() && PcOf(State(), tid) == TryDeqLoad
      modifies this`pcs
      ensures Valid() && State() == Step(old(State()), tid, Go)
      ensures PcOf(State(), tid) == TryDeqPoll(ticket)
    {
      StepKeeps(State(), tid, Go);
      ticket := readTicket;
      pcs := pcs[tid := TryDeqPoll(ticket)];
    }

    method PollReadSlot(tid: Tid, ticket: int) returns (diff: int)
      requires Valid() && PcOf(State(), tid) == TryDeqPoll(ticket)
      modifies this`pcs
      ensures Valid() && State() == Step(old(State()), tid, Go)
      ensures PcOf(State(), tid) == if diff == 0 then TryDeqCas(ticket) else if diff < 0 then Idle else TryDeqLoad
    {
      StepKeeps(State(), tid, Go);
      diff := seqs[Index(ticket)] - (ticket + 1);
      pcs := pcs[tid := if diff == 0 then TryDeqCas(ticket) else if diff < 0 then Idle else TryDeqLoad];
    }

    method ExchangeReadTicket(tid: Tid, ticket: int, spurious: bool) returns (won: bool, ticket': int)
      requires Valid() && PcOf(State(), tid) == TryDeqCas(ticket)
      modifies this`readTicket, this`pcs, this`reader
      ensures Valid() && State() == Step(old(State()), tid, if spurious then SpuriousCasFailure else Go)
      ensures PcOf(State(), tid) == if won then DeqLoad(ticket) else TryDeqPoll(ticket')
    {
      StepKeeps(State(), tid, if spurious then SpuriousCasFailure else Go);
      ticket' := readTicket;
      won := !spurious && readTicket == ticket;
      if won {
        readTicket := ticket + 1;
        pcs, reader := pcs[tid := DeqLoad(ticket)], reader[ticket := tid];
      } else {
        pcs := pcs[tid := TryDeqPoll(ticket')];
      }
    }
  }
}
