/** The framer objects at both ends of a line: what is written into one ring and packed is
    what the other end unpacks. */
module FaxTransfer {
  import opened Seqs
  import opened Bits
  import opened Fcs
  import opened FaxFramer
  import opened HdlcLink
  import T = HdlcTransmitter
  import R = HdlcReceiver

  // ------------------------------------------------------- ticks and runs are one thing

  /** Asking for bits in a run is ticking the transmitter. */
  lemma {:induction false} SendsAreTicks(y: System, n: nat)
    requires T.Shaped(y.tx)
    ensures After(y, Sends(n))
         == y.(tx := T.TickMany(y.tx, n).0, sent := y.sent + T.TickMany(y.tx, n).1)
  {
    hide T.Tick;
    if n == 0 {
      assert y.sent + [] == y.sent;
    } else {
      SendsAreTicks(y, n - 1);
      assert Sends(n) == Sends(n - 1) + [Send];
      AfterConcat(y, Sends(n - 1), [Send]);
      AfterOne(After(y, Sends(n - 1)));
      var r := T.TickMany(y.tx, n - 1);
      Associate(y.sent, r.1, [T.Tick(r.0).1]);
    }
  }

  lemma AfterOne(y: System)
    requires T.Shaped(y.tx)
    ensures After(y, [Send]) == y.(tx := T.Tick(y.tx).0, sent := y.sent + [T.Tick(y.tx).1])
  {
    hide T.Tick;
    NextSend(y);
    assert [Send][1..] == [];
    assert After(Next(y, Send), []) == Next(y, Send);
  }

  lemma ShiftUnread(t: T.Tx, mark: bool)
    requires T.Shaped(t) && t.at < 32
    ensures T.Shift(t.(underrun := mark)) == (T.Shift(t).0.(underrun := mark), T.Shift(t).1)
  {
    hide T.FiveOnes;
  }

  lemma RefillUnread(t: T.Tx, mark: bool)
    requires T.Shaped(t) && t.at == 32
    ensures var u := T.Refill(t.(underrun := mark)); u == T.Refill(t).(underrun := u.underrun)
  {
    hide BitsOf, Trips;
  }

  /** The underrun mark is never read. */
  lemma UnderrunUnread(t: T.Tx, mark: bool)
    requires T.Shaped(t)
    ensures T.Shaped(t.(underrun := mark)) && T.Tick(t.(underrun := mark)).1 == T.Tick(t).1
    ensures exists after: bool :: T.Tick(t.(underrun := mark)).0 == T.Tick(t).0.(underrun := after)
  {
    hide BitsOf, Trips, T.Shift, T.Refill;
    if t.at == 32 {
      RefillUnread(t, mark);
      ShiftUnread(T.Refill(t), T.Refill(t.(underrun := mark)).underrun);
    } else {
      ShiftUnread(t, mark);
    }
    var u := T.Tick(t.(underrun := mark)).0;
    assert u == T.Tick(t).0.(underrun := u.underrun);
  }

  lemma {:induction false} UnderrunUnsent(t: T.Tx, mark: bool, n: nat)
    requires T.Shaped(t)
    ensures T.Shaped(t.(underrun := mark)) && T.TickMany(t.(underrun := mark), n).1 == T.TickMany(t, n).1
    ensures exists after: bool :: T.TickMany(t.(underrun := mark), n).0 == T.TickMany(t, n).0.(underrun := after)
  {
    hide T.Tick;
    if n == 0 {
      assert T.TickMany(t.(underrun := mark), 0).0 == T.TickMany(t, 0).0.(underrun := mark);
    } else {
      UnderrunUnsent(t, mark, n - 1);
      var after :| T.TickMany(t.(underrun := mark), n - 1).0 == T.TickMany(t, n - 1).0.(underrun := after);
      UnderrunUnread(T.TickMany(t, n - 1).0, after);
    }
  }

  lemma {:induction false} TicksPrefix(t: T.Tx, n: nat, m: nat)
    requires T.Shaped(t) && n <= m
    ensures T.TickMany(t, n).1 <= T.TickMany(t, m).1
    decreases m
  {
    hide T.Tick;
    if n < m {
      TicksPrefix(t, n, m - 1);
    }
  }

  // ------------------------------------------------------------------- writes, then bits

  /** The run that writes some payloads. */
  function Writes(payloads: seq<seq<nat>>): (events: seq<Event>)
    ensures |events| == |payloads|
  {
    seq(|payloads|, i requires 0 <= i < |payloads| => Write(payloads[i]))
  }

  /** The ring of a transmitter that has only been written to. */
  function Queue(payloads: seq<seq<nat>>): seq<nat> {
    if payloads == [] then [] else Queue(payloads[..|payloads| - 1]) + T.Encoded(payloads[|payloads| - 1])
  }

  lemma {:induction false} AfterWrites(payloads: seq<seq<nat>>)
    ensures After(START, Writes(payloads)) == System(T.CREATED.(queue := Queue(payloads)), [], payloads)
  {
    hide T.Encoded;
    if payloads == [] {
      assert Writes([]) == [];
    } else {
      var init, p := payloads[..|payloads| - 1], payloads[|payloads| - 1];
      AfterWrites(init);
      assert Writes(payloads) == Writes(init) + [Write(p)];
      AfterConcat(START, Writes(init), [Write(p)]);
      AfterWrite(After(START, Writes(init)), p);
      assert init + [p] == payloads;
    }
  }

  lemma AfterWrite(y: System, p: seq<nat>)
    requires T.Shaped(y.tx)
    ensures After(y, [Write(p)]) == Next(y, Write(p))
  {
    assert [Write(p)][1..] == [];
    assert After(Next(y, Write(p)), []) == Next(y, Write(p));
  }

  /** The line bits of a fresh transmitter that was written some payloads. */
  ghost function LineBitsOf(payloads: seq<seq<nat>>, n: nat): (b: Bits)
    ensures |b| == n
  {
    T.TickMany(T.CREATED.(queue := Queue(payloads)), n).1
  }

  lemma RunBits(payloads: seq<seq<nat>>, n: nat)
    ensures After(START, Writes(payloads) + Sends(n)).sent == LineBitsOf(payloads, n)
    ensures After(START, Writes(payloads) + Sends(n)).written == payloads
  {
    hide T.TickMany, T.Tick, After, Writes, Sends, Queue;
    AfterWrites(payloads);
    AfterConcat(START, Writes(payloads), Sends(n));
    SendsAreTicks(After(START, Writes(payloads)), n);
    assert [] + LineBitsOf(payloads, n) == LineBitsOf(payloads, n);
  }

  ghost predicate Short(payloads: seq<seq<nat>>) {
    forall i | 0 <= i < |payloads| :: |payloads[i]| < 0x8000
  }

  lemma ShortLengths(payloads: seq<seq<nat>>, n: nat)
    requires Short(payloads)
    ensures Lengths(Writes(payloads) + Sends(n))
  {
    var events := Writes(payloads) + Sends(n);
    forall i | 0 <= i < |events|
      ensures events[i].Write? ==> |events[i].payload| + 2 < 0x10000
    {
      if i < |payloads| {
        assert events[i] == Write(payloads[i]);
      } else {
        assert events[i] == Sends(n)[i - |payloads|];
      }
    }
  }

  /** What the far end has been handed after `n` line bits. */
  ghost function Handed(c: R.Config, payloads: seq<seq<nat>>, n: nat): seq<seq<nat>>
    requires R.Valid(c, R.Created(c))
  {
    R.Receive(c, R.Created(c), LineBitsOf(payloads, n)).out
  }

  /** From `n` line bits on everything has been handed over, and nothing else. */
  ghost predicate Enough(c: R.Config, payloads: seq<seq<nat>>, n: nat)
    requires R.Valid(c, R.Created(c))
  {
    forall m: nat | m >= n :: Handed(c, payloads, m) == Delivered(payloads)
  }

  lemma HandedPrefix(c: R.Config, payloads: seq<seq<nat>>, n: nat)
    requires Fits(c, payloads) && Short(payloads)
    ensures R.Valid(c, R.Created(c)) && Handed(c, payloads, n) <= Delivered(payloads)
  {
    hide R.Receive, R.Valid, R.Created, Fits, Delivered, Short, Lengths, LineBitsOf;
    ShortLengths(payloads, n);
    RunBits(payloads, n);
    NothingInvented(c, Writes(payloads) + Sends(n));
  }

  /** Whatever was written, some number of line bits is enough. */
  lemma SomeIsEnough(c: R.Config, payloads: seq<seq<nat>>)
    requires Fits(c, payloads) && Short(payloads)
    ensures R.Valid(c, R.Created(c)) && exists n :: Enough(c, payloads, n)
  {
    hide R.Receive, R.Valid, R.Created, Fits, Delivered, Short, Lengths;
    ShortLengths(payloads, 0);
    RunBits(payloads, 0);
    assert Writes(payloads) + Sends(0) == Writes(payloads);
    var n := EventuallyDelivered(c, Writes(payloads));
    RunBits(payloads, n);
    forall m: nat | m >= n
      ensures Handed(c, payloads, m) == Delivered(payloads)
    {
      HandedPrefix(c, payloads, m);
      HandedGrows(c, payloads, n, m);
    }
    assert Enough(c, payloads, n);
  }

  lemma HandedGrows(c: R.Config, payloads: seq<seq<nat>>, n: nat, m: nat)
    requires R.Valid(c, R.Created(c)) && n <= m
    ensures Handed(c, payloads, n) <= Handed(c, payloads, m)
  {
    hide R.Receive, R.Created, R.Valid, T.TickMany;
    TicksPrefix(T.CREATED.(queue := Queue(payloads)), n, m);
    var a, b := LineBitsOf(payloads, n), LineBitsOf(payloads, m);
    assert b == a + b[n..];
    PrefixDecodes(c, a, b[n..]);
  }

  // ----------------------------------------------------------------------- the objects

  /** A transmitter written as many payloads as its ring takes, its packed elements handed
      to a receiver: the frames unpacked are a prefix of those written, and all of them as
      soon as the elements carry enough bits. */
  method Transfer(payloads: seq<seq<nat>>, size: nat, c: R.Config, packCount: int, width: nat)
    returns (frames: seq<seq<nat>>, written: nat)
    requires 0 < size < 0x10000 && c.frameSize + 1 < 0x10000 && 1 <= width <= 16
    requires Fits(c, payloads) && Short(payloads)
    ensures written <= |payloads| && R.Valid(c, R.Created(c))
    ensures Fill(payloads, written, size)
    ensures frames <= Delivered(payloads[..written])
    ensures forall n: nat | Enough(c, payloads[..written], n) && n + width <= Trips(packCount) * width + 1 ::
              frames == Delivered(payloads[..written])
  {
    hide *;
    var elements;
    elements, written := Dispatch(payloads, size, packCount, width);
    ghost var done := payloads[..written];
    FitsPrefix(c, payloads, written);
    frames := Collect(c, elements, width);
    ghost var sent := LineOf(elements, width);
    ghost var taken := sent[..Taken(|sent|, width)];
    TakenBits(done, sent, taken);
    HandedPrefix(c, done, |taken|);
    HandedAre(c, done, taken, frames);
    forall n: nat | Enough(c, done, n) && n + width <= Trips(packCount) * width + 1
      ensures frames == Delivered(done)
    {
      TakenIs(|sent|, width);
      EnoughMeans(c, done, n, |taken|);
    }
  }

  /** Of the bits in whole elements the receiver takes all but the last element's remaining
      ones. */
  function Taken(bits: nat, width: nat): (n: nat)
    requires width >= 1
    ensures n <= bits
  {
    if bits < width then 0 else bits - width + 1
  }

  lemma TakenIs(bits: nat, width: nat)
    requires width >= 1
    ensures bits + 1 <= Taken(bits, width) + width
  {
  }

  /** Each of the first `n` payloads found room in a ring of `size`, and the next did not. */
  ghost predicate Fill(payloads: seq<seq<nat>>, n: nat, size: nat)
    requires n <= |payloads|
  {
    && (forall i | 0 <= i < n :: HasRoom(payloads, i, size))
    && (n < |payloads| ==> !HasRoom(payloads, n, size))
  }

  ghost predicate HasRoom(payloads: seq<seq<nat>>, i: nat, size: nat)
    requires i < |payloads|
  {
    |Queue(payloads[..i])| + |payloads[i]| + 3 < size
  }

  /** The sending side: the elements of a new transmitter carry the line bits of what was
      written into it. */
  method Dispatch(payloads: seq<seq<nat>>, size: nat, packCount: int, width: nat)
    returns (elements: seq<Bits>, written: nat)
    requires 0 < size < 0x10000 && 1 <= width <= 16 && Short(payloads)
    ensures written <= |payloads| && Elements(elements) && Fill(payloads, written, size)
    ensures LineOf(elements, width) == LineBitsOf(payloads[..written], Trips(packCount) * width)
  {
    hide T.TickMany, Queue, Short, LineOf, Elements, Trips;
    var tx := new TxFramer(size);
    written := WriteAll(tx, payloads);
    ghost var start := tx.State();
    ghost var sent;
    elements, sent := tx.Pack(packCount, width);
    LineLength(elements, width);
    UnderrunUnsent(T.CREATED.(queue := Queue(payloads[..written])), start.underrun, |sent|);
  }

  /** The receiving side: what a new receiver hands on of a line of elements. */
  method Collect(c: R.Config, elements: seq<Bits>, width: nat) returns (frames: seq<seq<nat>>)
    requires 1 <= c.frameSize && c.frameSize + 1 < 0x10000 && 1 <= width <= 16 && Elements(elements)
    ensures R.Valid(c, R.Created(c))
    ensures var line := LineOf(elements, width);
            frames == R.Receive(c, R.Created(c), line[..Taken(|line|, width)]).out
  {
    hide R.Receive, LineOf, Elements;
    var rx := new RxFramer(c.frameSize, c.maxFrame);
    ghost var taken;
    frames, taken := rx.Unframe(elements, width);
    assert [] + LineOf(elements, width) == LineOf(elements, width);
    LineLength(elements, width);
    TakenAll(|elements|, width);
    assert taken == LineOf(elements, width)[..|taken|];
  }

  lemma TakenAll(elements: nat, width: nat)
    requires width >= 1
    ensures Taken(elements * width, width) == if elements == 0 then 0 else elements * width - width + 1
  {
    if elements > 0 {
      assert elements * width == (elements - 1) * width + width;
    }
  }

  lemma HandedAre(c: R.Config, payloads: seq<seq<nat>>, taken: Bits, frames: seq<seq<nat>>)
    requires R.Valid(c, R.Created(c)) && frames == R.Receive(c, R.Created(c), taken).out
    requires taken == LineBitsOf(payloads, |taken|)
    ensures frames == Handed(c, payloads, |taken|)
  {
  }

  lemma EnoughMeans(c: R.Config, payloads: seq<seq<nat>>, n: nat, m: nat)
    requires R.Valid(c, R.Created(c)) && Enough(c, payloads, n) && m >= n
    ensures Handed(c, payloads, m) == Delivered(payloads)
  {
  }

  lemma TakenBits(payloads: seq<seq<nat>>, sent: Bits, taken: Bits)
    requires sent == LineBitsOf(payloads, |sent|) && taken <= sent
    ensures taken == LineBitsOf(payloads, |taken|)
  {
    TicksPrefix(T.CREATED.(queue := Queue(payloads)), |taken|, |sent|);
    hide T.TickMany;
    assert sent[..|taken|] == taken;
  }

  lemma {:induction false} LineLength(elements: seq<Bits>, width: nat)
    requires Elements(elements) && width <= 16
    ensures |LineOf(elements, width)| == |elements| * width
  {
    if elements != [] {
      LineLength(elements[1..], width);
      assert |elements| * width == width + (|elements| - 1) * width;
    }
  }

  lemma FitsPrefix(c: R.Config, payloads: seq<seq<nat>>, n: nat)
    requires Fits(c, payloads) && Short(payloads) && n <= |payloads|
    ensures Fits(c, payloads[..n]) && Short(payloads[..n])
  {
  }

  /** Payloads are written in order until one does not fit the ring. */
  method WriteAll(tx: TxFramer, payloads: seq<seq<nat>>) returns (written: nat)
    requires tx.Valid() && tx.State() == T.CREATED && Short(payloads)
    modifies tx.ring`wr, tx.ring`cells, tx.ring.fifo, tx`count, tx`underrun
    ensures tx.Valid() && written <= |payloads| && Fill(payloads, written, tx.ring.fifo.Length)
    ensures tx.State() == T.CREATED.(queue := Queue(payloads[..written]), underrun := tx.underrun)
  {
    hide T.Encoded, Queue;
    written := 0;
    QueueNone(payloads);
    while written < |payloads|
      invariant tx.Valid() && written <= |payloads|
      invariant forall i | 0 <= i < written :: HasRoom(payloads, i, tx.ring.fifo.Length)
      invariant tx.State() == T.CREATED.(queue := Queue(payloads[..written]), underrun := tx.underrun)
    {
      var ok := tx.WriteFrame(payloads[written]);
      if !ok {
        return;
      }
      QueueNext(payloads, written);
      written := written + 1;
    }
  }

  lemma QueueNone(payloads: seq<seq<nat>>)
    ensures Queue(payloads[..0]) == []
  {
  }

  lemma QueueNext(payloads: seq<seq<nat>>, n: nat)
    requires n < |payloads|
    ensures Queue(payloads[..n + 1]) == Queue(payloads[..n]) + T.Encoded(payloads[n])
  {
    hide T.Encoded;
    assert payloads[..n + 1][..n] == payloads[..n];
  }
}
