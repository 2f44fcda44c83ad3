/** The keyboard ring buffer of kernel/drivers/keyboard.c under interrupts, as steps on shared memory. */
module KeyboardRing {

  const SIZE: nat := 256

  /** Where the reader stands inside buf_pop: each constructor holds what its last memory reads gave. */
  datatype Reader =
    | Outside
    | ReadTail(tail: nat)
    | ReadHead(head: nat, wasEmpty: bool)
    | NotEmpty
    | ReadIndex(index: nat)
    | ReadValue(value: int)
    | ReadTailAgain(value: int, tail: nat)

  /** The shared words, the reader, and the history: values accepted, values popped, how the last call ended. */
  datatype Ring = Ring(buf: seq<int>, head: nat, tail: nat, reader: Reader,
                       accepted: seq<int>, popped: seq<int>, refused: nat, emptyAnswers: nat, falseEmpties: nat)

  /** An interrupt that pushes a key, or one memory step of the reader; the order of the first two reads is open. */
  datatype Event = Key(c: int) | Step(tailFirst: bool)

  function Initial(buf: seq<int>): Ring {
    Ring(buf, 0, 0, Outside, [], [], 0, 0, 0)
  }

  /** Number of entries from tail to head. */
  function Count(r: Ring): (n: nat)
    requires r.head < SIZE && r.tail < SIZE
    ensures n < SIZE
  {
    if r.head >= r.tail then r.head - r.tail else r.head + SIZE - r.tail
  }

  /** Position i places after tail, going round. */
  function Place(tail: nat, i: nat): (k: nat)
    requires tail < SIZE && i < SIZE
    ensures k < SIZE
  {
    if tail + i < SIZE then tail + i else tail + i - SIZE
  }

  /** The entries from tail to head, oldest first. */
  function Buffered(r: Ring): (s: seq<int>)
    requires |r.buf| == SIZE && r.head < SIZE && r.tail < SIZE
    ensures |s| == Count(r)
  {
    seq(Count(r), i requires 0 <= i < Count(r) => r.buf[Place(r.tail, i)])
  }

  /** buf_push, which runs to completion inside the interrupt. */
  function Push(r: Ring, c: int): Ring
    requires |r.buf| == SIZE && r.head < SIZE
  {
    var next := (r.head + 1) % SIZE;
    if next == r.tail then r.(refused := r.refused + 1)
    else r.(buf := r.buf[r.head := c], head := next, accepted := r.accepted + [c])
  }

  /** One memory step of buf_pop; the last one also returns the value. */
  function PopStep(r: Ring, tailFirst: bool): Ring
    requires |r.buf| == SIZE
  {
    match r.reader
    case Outside => if tailFirst then r.(reader := ReadTail(r.tail))
        else r.(reader := ReadHead(r.head, r.head == r.tail))
    case ReadTail(t) => if t == r.head then AnswerEmpty(r, r.head == r.tail) else r.(reader := NotEmpty)
    case ReadHead(h, wasEmpty) => if r.tail == h then AnswerEmpty(r, wasEmpty) else r.(reader := NotEmpty)
    case NotEmpty => r.(reader := ReadIndex(r.tail))
    case ReadIndex(i) => r.(reader := ReadValue(if i < SIZE then r.buf[i] else 0))
    case ReadValue(c) => r.(reader := ReadTailAgain(c, r.tail))
    case ReadTailAgain(c, t) => r.(tail := (t + 1) % SIZE, reader := Outside, popped := r.popped + [c])
  }

  /** buf_pop returns -1; empty says whether the ring was empty when the deciding word was read. */
  function AnswerEmpty(r: Ring, empty: bool): Ring {
    r.(reader := Outside, emptyAnswers := r.emptyAnswers + 1, falseEmpties := r.falseEmpties + if empty then 0 else 1)
  }

  function Next(r: Ring, e: Event): Ring
    requires |r.buf| == SIZE && r.head < SIZE
  {
    match e
    case Key(c) => Push(r, c)
    case Step(tailFirst) => PopStep(r, tailFirst)
  }

  /** What the reader has read is still true of the ring. */
  ghost predicate ReaderOk(r: Ring)
    requires |r.buf| == SIZE && r.head < SIZE && r.tail < SIZE
  {
    match r.reader
    case Outside => true
    case ReadTail(t) => t == r.tail
    case ReadHead(h, wasEmpty) => (wasEmpty <==> h == r.tail) && (!wasEmpty ==> Count(r) > 0)
    case NotEmpty => Count(r) > 0
    case ReadIndex(i) => Count(r) > 0 && i == r.tail
    case ReadValue(c) => Count(r) > 0 && c == r.buf[r.tail]
    case ReadTailAgain(c, t) => Count(r) > 0 && c == r.buf[r.tail] && t == r.tail
  }

  /** The ring is a queue: what was popped, then what is buffered, is what was accepted. */
  ghost predicate Fifo(r: Ring) {
    && |r.buf| == SIZE && r.head < SIZE && r.tail < SIZE
    && r.popped + Buffered(r) == r.accepted
    && ReaderOk(r)
    && r.falseEmpties == 0
  }

  lemma PushLaw(r: Ring, c: int)
    requires |r.buf| == SIZE && r.head < SIZE && r.tail < SIZE
    ensures var r' := Push(r, c);
            && (Count(r) == 255 <==> r'.refused == r.refused + 1)
            && (Count(r) == 255 ==> Buffered(r') == Buffered(r) && r'.accepted == r.accepted)
            && (Count(r) < 255 ==> Buffered(r') == Buffered(r) + [c] && r'.accepted == r.accepted + [c])
            && (Count(r) > 0 ==> r'.buf[r.tail] == r.buf[r.tail])
  {
    var r' := Push(r, c);
    if Count(r) < 255 {
      assert Count(r') == Count(r) + 1;
      forall i | 0 <= i < Count(r')
        ensures Buffered(r')[i] == (Buffered(r) + [c])[i]
      {
      }
    }
  }

  /** Moving tail on drops the oldest entry. */
  lemma PopLaw(r: Ring)
    requires |r.buf| == SIZE && r.head < SIZE && r.tail < SIZE && Count(r) > 0
    ensures var r' := r.(tail := (r.tail + 1) % SIZE);
            r'.tail < SIZE && Count(r') == Count(r) - 1 && Buffered(r) == [r.buf[r.tail]] + Buffered(r')
  {
    var r' := r.(tail := (r.tail + 1) % SIZE);
    assert Count(r') == Count(r) - 1;
    forall i | 0 <= i < Count(r)
      ensures Buffered(r)[i] == ([r.buf[r.tail]] + Buffered(r'))[i]
    {
    }
  }

  lemma EmptyLaw(r: Ring)
    requires r.head < SIZE && r.tail < SIZE
    ensures Count(r) == 0 <==> r.head == r.tail
  {
  }

  /** The queue is read off the three shared fields alone. */
  lemma SameShared(r: Ring, r': Ring)
    requires |r.buf| == SIZE && r.head < SIZE && r.tail < SIZE && r'.buf == r.buf && r'.head == r.head
             && r'.tail == r.tail
    ensures Count(r') == Count(r) && Buffered(r') == Buffered(r)
  {
    assert Count(r') == Count(r);
  }

  lemma StepLaw(r: Ring, tailFirst: bool)
    requires Fifo(r)
    ensures Fifo(PopStep(r, tailFirst))
  {
    EmptyLaw(r);
    var r' := PopStep(r, tailFirst);
    hide Count, Buffered;
    if r.reader.ReadTailAgain? {
      var moved := r.(tail := (r.tail + 1) % SIZE);
      PopLaw(r);
      SameShared(moved, r');
      assert r.popped + ([r.buf[r.tail]] + Buffered(moved)) == r'.popped + Buffered(r');
    } else {
      SameShared(r, r');
    }
  }

  lemma KeyLaw(r: Ring, c: int)
    requires Fifo(r)
    ensures Fifo(Push(r, c))
    ensures Push(r, c).refused == r.refused + (if Count(r) == 255 then 1 else 0)
    ensures Push(r, c).accepted == r.accepted + (if Count(r) == 255 then [] else [c])
  {
    PushLaw(r, c);
    var r' := Push(r, c);
    assert Count(r') >= Count(r);
    hide Buffered;
    if Count(r) < 255 { assert r.popped + (Buffered(r) + [c]) == (r.popped + Buffered(r)) + [c]; }
  }

  lemma NextLaw(r: Ring, e: Event)
    requires Fifo(r)
    ensures Fifo(Next(r, e))
  {
    hide Fifo, Push, PopStep;
    match e
    case Key(c) => KeyLaw(r, c);
    case Step(tailFirst) => StepLaw(r, tailFirst);
  }

  ghost function Run(r: Ring, es: seq<Event>): Ring
    decreases |es|
  {
    if es == [] || |r.buf| != SIZE || r.head >= SIZE then r else Run(Next(r, es[0]), es[1..])
  }

  /**
   However key interrupts fall between the memory steps of the reader: popped values followed by
   buffered ones are the accepted ones in order, and "empty" is answered only if the ring was empty.
   */
  lemma {:induction false} RunFifo(r: Ring, es: seq<Event>)
    requires Fifo(r)
    ensures Fifo(Run(r, es))
    decreases |es|
  {
    hide Next, Fifo;
    assert |r.buf| == SIZE && r.head < SIZE by { FifoShape(r); }
    if es != [] {
      NextLaw(r, es[0]);
      RunFifo(Next(r, es[0]), es[1..]);
    }
  }

  lemma FifoShape(r: Ring)
    requires Fifo(r)
    ensures |r.buf| == SIZE && r.head < SIZE && r.tail < SIZE
  {
  }

  lemma InitialFifo(buf: seq<int>)
    requires |buf| == SIZE
    ensures Fifo(Initial(buf))
  {
    assert Buffered(Initial(buf)) == [];
  }
}
