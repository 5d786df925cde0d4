/** The two halves of the HDLC codec joined by a line: what is written at one end is
    what is handed on at the other, over every run. */
module HdlcLink {
  import opened Seqs
  import opened Bits
  import opened FcsDetection
  import opened HdlcLine
  import T = HdlcTransmitter
  import R = HdlcReceiver

  // ---------------------------------------------------------------- receiving a line

  ghost predicate AllDeliverable(c: R.Config, frames: seq<seq<nat>>) {
    forall i | 0 <= i < |frames| :: R.Deliverable(c, frames[i])
  }

  function LowFrames(frames: seq<seq<nat>>): (r: seq<seq<nat>>)
    ensures |r| == |frames|
  {
    seq(|frames|, i requires 0 <= i < |frames| => LowOctets(frames[i]))
  }

  lemma LowFramesConcat(a: seq<seq<nat>>, b: seq<seq<nat>>)
    ensures LowFrames(a + b) == LowFrames(a) + LowFrames(b)
  {
  }

  lemma HeadDeliverable(c: R.Config, f: seq<nat>, rest: seq<seq<nat>>)
    requires AllDeliverable(c, [f] + rest)
    ensures R.Deliverable(c, f) && AllDeliverable(c, rest)
  {
    hide R.Deliverable;
    var all := [f] + rest;
    assert all[0] == f;
    assert forall i | 0 <= i < |rest| :: rest[i] == all[i + 1];
  }

  lemma FirstFrame(c: R.Config, line: seq<Segment>)
    requires line != [] && line[0].Frame? && AllDeliverable(c, Frames(line))
    ensures R.Deliverable(c, line[0].octets) && AllDeliverable(c, Frames(line[1..]))
    ensures LowFrames(Frames(line)) == [LowOctets(line[0].octets)] + LowFrames(Frames(line[1..]))
  {
    var f, g := Frames(line), Frames(line[1..]);
    assert f == [line[0].octets] + g;
    hide Frames, R.Deliverable;
    HeadDeliverable(c, line[0].octets, g);
    LowFramesConcat([line[0].octets], g);
    assert LowFrames([line[0].octets]) == [LowOctets(line[0].octets)];
  }

  lemma FirstIdle(line: seq<Segment>)
    requires line != [] && line[0] == Idle
    ensures Frames(line) == Frames(line[1..]) && SegmentBits(line[0]) == FLAG
  {
  }

  lemma LineSplit(c: R.Config, s: R.Rx, line: seq<Segment>)
    requires R.Valid(c, s) && line != []
    ensures R.Receive(c, s, LineBits(line) + FLAG)
         == R.Receive(c, R.Receive(c, s, SegmentBits(line[0])), LineBits(line[1..]) + FLAG)
  {
    var first, rest := SegmentBits(line[0]), LineBits(line[1..]) + FLAG;
    assert LineBits(line) + FLAG == first + rest;
    R.ReceiveConcat(c, s, first, rest);
  }

  /** Any mix of idle flags and frames is decoded to exactly its frames. */
  lemma {:induction false} LineDecodes(c: R.Config, s: R.Rx, held: seq<seq<nat>>, line: seq<Segment>)
    requires R.Awaiting(c, s, held) && AllDeliverable(c, Frames(line))
    ensures R.Receive(c, s, LineBits(line) + FLAG).out == (s.out + held) + LowFrames(Frames(line))
    decreases |line|
  {
    hide R.Receive, R.Awaiting, LineBits, SegmentBits, Frames, LowFrames, AllDeliverable;
    R.AwaitingValid(c, s, held);
    if line == [] {
      var t := R.FlagCloses(c, s, held);
      NoLine();
    } else if line[0] == Idle {
      LineSplit(c, s, line);
      FirstIdle(line);
      var t := R.FlagCloses(c, s, held);
      LineDecodes(c, t, [], line[1..]);
      assert t.out + [] == t.out;
    } else {
      LineSplit(c, s, line);
      FirstFrame(c, line);
      var t := R.FrameHeld(c, s, held, line[0].octets);
      var low, more := [LowOctets(line[0].octets)], LowFrames(Frames(line[1..]));
      LineDecodes(c, t, low, line[1..]);
      assert (t.out + low) + more == t.out + (low + more);
    }
  }

  lemma NoLine()
    ensures LineBits([]) + FLAG == FLAG && LowFrames(Frames([])) == []
  {
  }

  // --------------------------------------------------------------------- every run

  /** A run interleaves writing whole frames into the ring with sending line bits. */
  datatype Event = Write(payload: seq<nat>) | Send

  /** The transmitter, the bits it has put on the line, and the payloads written. */
  datatype System = System(tx: T.Tx, sent: Bits, written: seq<seq<nat>>)

  const START: System := System(T.CREATED, [], [])

  function Next(y: System, e: Event): (z: System)
    requires T.Shaped(y.tx)
    ensures T.Shaped(z.tx)
  {
    match e
    case Write(p) => y.(tx := y.tx.(queue := y.tx.queue + T.Encoded(p)), written := y.written + [p])
    case Send => var r := T.Tick(y.tx); y.(tx := r.0, sent := y.sent + [r.1])
  }

  function After(y: System, events: seq<Event>): (z: System)
    requires T.Shaped(y.tx)
    ensures T.Shaped(z.tx)
    decreases |events|
  {
    if events == [] then y else After(Next(y, events[0]), events[1..])
  }

  function ClosedAll(payloads: seq<seq<nat>>): (r: seq<seq<nat>>)
    ensures |r| == |payloads|
  {
    seq(|payloads|, i requires 0 <= i < |payloads| => Closed(payloads[i]))
  }

  /** What has been sent, completed by what is owed, is a line of segments; its frames
      followed by those still waiting in the ring are the frames written. */
  ghost predicate Explained(y: System, line: seq<Segment>) {
    && T.Valid(y.tx)
    && y.sent + T.Owed(y.tx) == LineBits(line)
    && Frames(line) + T.Waiting(y.tx) == ClosedAll(y.written)
  }

  predicate Lengths(events: seq<Event>) {
    forall i | 0 <= i < |events| && events[i].Write? :: |events[i].payload| + 2 < 0x10000
  }

  lemma WriteExplained(y: System, line: seq<Segment>, p: seq<nat>)
    requires Explained(y, line) && |p| + 2 < 0x10000
    ensures Explained(Next(y, Write(p)), line)
  {
    T.OwedAppend(y.tx, p);
    assert ClosedAll(y.written + [p]) == ClosedAll(y.written) + [Closed(p)];
    assert Frames(line) + (T.Waiting(y.tx) + [Closed(p)]) == (Frames(line) + T.Waiting(y.tx)) + [Closed(p)];
  }

  lemma NextSend(y: System)
    requires T.Shaped(y.tx)
    ensures Next(y, Send) == y.(tx := T.Tick(y.tx).0, sent := y.sent + [T.Tick(y.tx).1])
  {
    hide T.Tick;
  }

  lemma SendPays(y: System, line: seq<Segment>)
    requires Explained(y, line) && (y.tx.at < 32 || y.tx.left != 0)
    ensures Explained(Next(y, Send), line)
  {
    T.TickPays(y.tx);
    NextSend(y);
    hide T.Tick, T.Owed, T.Valid, T.Waiting, LineBits, Frames, ClosedAll, Next;
    var u, b := T.Tick(y.tx).0, T.Tick(y.tx).1;
    Associate(y.sent, [b], T.Owed(u));
  }

  lemma SendStarts(y: System, line: seq<Segment>)
    requires Explained(y, line) && y.tx.at == 32 && y.tx.left == 0
    ensures Explained(Next(y, Send), line + [T.Upcoming(y.tx)])
  {
    var seg, w := T.Upcoming(y.tx), T.Waiting(y.tx);
    T.NothingOwed(y.tx);
    T.TickStarts(y.tx);
    NextSend(y);
    hide T.Tick, T.Owed, T.Valid, T.Waiting, ClosedAll, Next, LineBits, Frames, SegmentBits;
    var u, b := T.Tick(y.tx).0, T.Tick(y.tx).1;
    LineBitsSnoc(line, seg);
    FramesSnoc(line, seg);
    assert y.sent + [] == y.sent;
    Associate(y.sent, [b], T.Owed(u));
    FramesMove(Frames(line), w);
  }

  lemma FramesMove(f: seq<seq<nat>>, w: seq<seq<nat>>)
    ensures w != [] ==> f + w == (f + [w[0]]) + w[1..]
    ensures w == [] ==> f + w == (f + []) + []
  {
  }

  lemma {:induction false} RunExplained(y: System, line: seq<Segment>, events: seq<Event>)
    returns (longer: seq<Segment>)
    requires Explained(y, line) && Lengths(events)
    ensures Explained(After(y, events), longer)
    decreases |events|
  {
    if events == [] {
      longer := line;
    } else {
      var next := line;
      assert Lengths(events[1..]);
      match events[0] {
        case Write(p) => WriteExplained(y, line, p);
        case Send =>
          if y.tx.at < 32 || y.tx.left != 0 {
            SendPays(y, line);
          } else {
            SendStarts(y, line);
            next := line + [T.Upcoming(y.tx)];
          }
      }
      longer := RunExplained(Next(y, events[0]), next, events[1..]);
    }
  }

  // ------------------------------------------------------------------ the link theorems

  /** The receiver has room for every payload with its two check octets. */
  ghost predicate Fits(c: R.Config, payloads: seq<seq<nat>>) {
    c.frameSize >= 1
    && forall i | 0 <= i < |payloads| :: |payloads[i]| + 2 <= c.frameSize && |payloads[i]| + 2 < c.maxFrame
  }

  /** What the far end should be handed: each payload's octets, then its check octets. */
  function Delivered(payloads: seq<seq<nat>>): seq<seq<nat>> {
    LowFrames(ClosedAll(payloads))
  }

  lemma ClosedDeliverable(c: R.Config, payloads: seq<seq<nat>>)
    requires Fits(c, payloads)
    ensures AllDeliverable(c, ClosedAll(payloads))
  {
    forall i | 0 <= i < |payloads|
      ensures R.Deliverable(c, ClosedAll(payloads)[i])
    {
      ClosedIsGood(payloads[i]);
    }
  }

  lemma StartExplained()
    ensures Explained(START, [])
  {
    assert T.CREATED.queue[0..] == [];
    assert T.Owed(T.CREATED) == [] by {
      assert T.CREATED.word[32..] == [];
      assert T.CREATED.queue[..0] == [];
    }
  }

  /** Decoding a completed line of a run: its frames are a prefix of what was written. */
  lemma LineOfRun(c: R.Config, z: System, line: seq<Segment>)
    requires Explained(z, line) && Fits(c, z.written)
    ensures R.Valid(c, R.Created(c))
    ensures R.Receive(c, R.Created(c), LineBits(line) + FLAG).out == LowFrames(Frames(line))
    ensures LowFrames(Frames(line)) <= Delivered(z.written)
    ensures T.Waiting(z.tx) == [] ==> LowFrames(Frames(line)) == Delivered(z.written)
  {
    var w := ClosedAll(z.written);
    ClosedDeliverable(c, z.written);
    assert forall i | 0 <= i < |Frames(line)| :: Frames(line)[i] == w[i];
    var s := R.Created(c);
    assert R.Awaiting(c, s, []);
    LineDecodes(c, s, [], line);
    assert (s.out + []) + LowFrames(Frames(line)) == LowFrames(Frames(line));
    LowFramesConcat(Frames(line), T.Waiting(z.tx));
  }

  /** Safety, at every moment of every run: the far end has been handed some of the
      written frames, in order, unaltered, and nothing else. */
  lemma NothingInvented(c: R.Config, events: seq<Event>)
    requires Lengths(events) && Fits(c, After(START, events).written)
    ensures R.Valid(c, R.Created(c))
    ensures R.Receive(c, R.Created(c), After(START, events).sent).out <= Delivered(After(START, events).written)
  {
    StartExplained();
    hide After, Next, Delivered, Fits, R.Receive, R.Valid, R.Created, T.Owed;
    var z := After(START, events);
    var line := RunExplained(START, [], events);
    LineOfRun(c, z, line);
    assert LineBits(line) + FLAG == z.sent + (T.Owed(z.tx) + FLAG);
    PrefixDecodes(c, z.sent, T.Owed(z.tx) + FLAG);
  }

  lemma PrefixDecodes(c: R.Config, a: Bits, b: Bits)
    requires R.Valid(c, R.Created(c))
    ensures R.Receive(c, R.Created(c), a).out <= R.Receive(c, R.Created(c), a + b).out
  {
    R.ReceiveConcat(c, R.Created(c), a, b);
    R.OnlyCheckedFrames(c, R.Created(c), a);
    R.OnlyCheckedFrames(c, R.Receive(c, R.Created(c), a), b);
  }

  /** Completeness: once the ring is empty and the transmitter is between words, one
      more flag on the line hands every written frame on. */
  lemma EverythingArrives(c: R.Config, events: seq<Event>)
    requires Lengths(events) && Fits(c, After(START, events).written)
    requires var t := After(START, events).tx; t.queue == [] && t.at == 32
    ensures R.Valid(c, R.Created(c))
    ensures R.Receive(c, R.Created(c), After(START, events).sent + FLAG).out
         == Delivered(After(START, events).written)
  {
    StartExplained();
    var z := After(START, events);
    var line := RunExplained(START, [], events);
    LineOfRun(c, z, line);
    T.NothingOwed(z.tx);
    assert z.sent + [] == z.sent;
  }

  // --------------------------------------------------------------------- draining

  /** `n` line bits asked for and nothing written. */
  function Sends(n: nat): (events: seq<Event>)
    ensures |events| == n && forall i | 0 <= i < n :: events[i] == Send
  {
    seq(n, _ => Send)
  }

  lemma {:induction false} AfterConcat(y: System, a: seq<Event>, b: seq<Event>)
    requires T.Shaped(y.tx)
    ensures After(y, a + b) == After(After(y, a), b)
    decreases |a|
  {
    hide Next;
    if a == [] {
      assert a + b == b;
    } else {
      AfterConcat(Next(y, a[0]), a[1..], b);
      assert (a + b)[1..] == a[1..] + b;
    }
  }

  lemma {:induction false} SendsWriteNothing(y: System, n: nat)
    requires T.Shaped(y.tx)
    ensures After(y, Sends(n)).written == y.written
    decreases n
  {
    hide T.Tick;
    if n > 0 {
      SendsWriteNothing(Next(y, Send), n - 1);
      assert Sends(n)[1..] == Sends(n - 1);
    }
  }

  /** A tick never lengthens the ring, and the first tick of a frame shortens it. */
  lemma TickShortens(t: T.Tx)
    requires T.Valid(t)
    ensures |T.Tick(t).0.queue| <= |t.queue|
    ensures t.at == 32 && t.queue != [] ==> |T.Tick(t).0.queue| < |t.queue|
  {
  }

  /** Asking for one bit and then for the others. */
  lemma SendFirst(y: System, n: nat)
    requires T.Shaped(y.tx) && n > 0
    ensures After(y, Sends(n)) == After(Next(y, Send), Sends(n - 1))
  {
    hide Next;
    assert Sends(n)[0] == Send && Sends(n)[1..] == Sends(n - 1);
  }

  lemma ExplainedValid(y: System, line: seq<Segment>)
    requires Explained(y, line)
    ensures T.Valid(y.tx) && T.Shaped(y.tx) && y.tx.left <= |y.tx.queue|
  {
  }

  /** Left to send, the transmitter empties its ring and comes to rest between words. */
  lemma {:induction false} Drains(y: System, line: seq<Segment>) returns (n: nat)
    requires Explained(y, line)
    ensures var z := After(y, Sends(n)); z.tx.queue == [] && z.tx.at == 32
    decreases |y.tx.queue|, |T.Owed(y.tx)|
  {
    if y.tx.queue == [] && y.tx.at == 32 {
      n := 0;
    } else {
      hide T.Tick, T.Owed, T.Valid, After, Next, Explained, T.Upcoming, T.Waiting;
      ExplainedValid(y, line);
      TickShortens(y.tx);
      NextSend(y);
      var next := line;
      if y.tx.at < 32 || y.tx.left != 0 {
        SendPays(y, line);
        T.TickPays(y.tx);
      } else {
        SendStarts(y, line);
        next := line + [T.Upcoming(y.tx)];
      }
      ExplainedValid(Next(y, Send), next);
      var m := Drains(Next(y, Send), next);
      n := m + 1;
      SendFirst(y, n);
    }
  }

  /** At rest with an empty ring, eight ticks send one flag. */
  lemma IdleSendsFlag(y: System)
    requires T.Shaped(y.tx) && y.tx.queue == [] && y.tx.at == 32
    ensures After(y, Sends(8)).sent == y.sent + FLAG
  {
    hide T.Tick, After, Next, Sends;
    IdleTick(y.tx);
    NextSend(y);
    SendFirst(y, 8);
    RestOfFlag(Next(y, Send), 7);
    FlagSplit(y.sent);
  }

  lemma FlagSplit(sent: Bits)
    ensures sent + FLAG == (sent + [false]) + FLAG[1..]
  {
  }

  lemma IdleTick(t: T.Tx)
    requires T.Shaped(t) && t.queue == [] && t.at == 32
    ensures var r := T.Tick(t); !r.1 && r.0.flagging && r.0.at == 25 && r.0.word[25..] == FLAG[1..]
  {
    assert T.ONE_FLAG[24..] == FLAG;
    assert T.ONE_FLAG[25..] == FLAG[1..];
    assert T.ONE_FLAG[24] == FLAG[0];
  }

  /** Inside a flag a tick sends the bit under the mask and moves on. */
  lemma FlagTick(t: T.Tx)
    requires T.Shaped(t) && t.flagging && t.at < 32
    ensures var u := T.Tick(t).0;
            && u.flagging && u.word == t.word && u.at == t.at + 1 && T.Tick(t).1 == t.word[t.at]
  {
  }

  lemma {:induction false} RestOfFlag(y: System, n: nat)
    requires T.Shaped(y.tx) && y.tx.flagging && y.tx.at + n == 32
    ensures After(y, Sends(n)).sent == y.sent + y.tx.word[y.tx.at..]
    decreases n
  {
    var t := y.tx;
    if n == 0 {
      assert y.sent + t.word[32..] == y.sent;
    } else {
      FlagTick(t);
      hide T.Tick, After, Next, Sends;
      NextSend(y);
      SendFirst(y, n);
      RestOfFlag(Next(y, Send), n - 1);
      assert [t.word[t.at]] + t.word[t.at + 1..] == t.word[t.at..];
      Associate(y.sent, [t.word[t.at]], t.word[t.at + 1..]);
    }
  }

  /** Delivery: after any run, finitely many more line bits and no further write hand the
      far end every frame written, in order and unaltered. */
  lemma EventuallyDelivered(c: R.Config, events: seq<Event>) returns (n: nat)
    requires Lengths(events) && Fits(c, After(START, events).written)
    ensures R.Valid(c, R.Created(c))
    ensures R.Receive(c, R.Created(c), After(START, events + Sends(n)).sent).out
         == Delivered(After(START, events).written)
  {
    StartExplained();
    hide After, Next, Delivered, Explained, R.Receive, R.Valid, R.Created, Fits;
    var z := After(START, events);
    var line := RunExplained(START, [], events);
    var m := Drains(z, line);
    SendsWriteNothing(z, m);
    AfterConcat(START, events, Sends(m));
    assert Lengths(events + Sends(m));
    EverythingArrives(c, events + Sends(m));
    IdleSendsFlag(After(z, Sends(m)));
    AfterConcat(START, events + Sends(m), Sends(8));
    n := m + 8;
    assert events + Sends(n) == events + Sends(m) + Sends(8);
  }
}
