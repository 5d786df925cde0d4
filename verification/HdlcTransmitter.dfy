/** `faxvmi_hdlc_frame`, one line bit at a time: refilling from the ring, flags, and
    zero insertion by re-sending a cleared bit. */
module HdlcTransmitter {
  import opened Bits
  import opened Fcs
  import opened FcsDetection
  import opened HdlcLine

  /** The transmitter half of `struct faxvmi_framer`.  `queue` is what the ring holds;
      `word` is `pack_word` and `at` the place of the one bit of `pack_mask`, 32 when the
      mask is zero; `left` is `pack_frame_left`. */
  datatype Tx = Tx(queue: seq<nat>, left: nat, word: Bits, at: nat, acc: Bits, flagging: bool, underrun: bool)

  /** The state `FAXVMI_create` leaves. */
  const CREATED: Tx := Tx([], 0, Ones(32), 32, Ones(32), true, true)

  /** 0x7E7E7E behind mask 0x800000, and 0x7E behind mask 0x80. */
  const THREE_FLAGS: Bits := Zeros(8) + FLAG + FLAG + FLAG
  const ONE_FLAG: Bits := Zeros(24) + FLAG

  ghost predicate Shaped(t: Tx) {
    |t.word| == 32 && |t.acc| == 32 && t.at <= 32
  }

  /** The next source word when the mask has run out. */
  function Refill(t: Tx): (u: Tx)
    requires Shaped(t) && t.at == 32
    ensures Shaped(u) && u.at < 32
  {
    if t.queue == [] then
      t.(word := ONE_FLAG, at := 24, flagging := true, underrun := true)
    else if t.left != 0 then
      t.(queue := t.queue[1..], word := BitsOf(t.queue[0], 32), at := 24, flagging := false, left := t.left - 1)
    else
      t.(queue := t.queue[1..], word := THREE_FLAGS, at := 8, flagging := true, left := Trips(t.queue[0]))
  }

  /** `(acc & 0x1f) == 0x1f`. */
  predicate FiveOnes(acc: Bits)
    requires |acc| == 32
  {
    acc[27] && acc[28] && acc[29] && acc[30] && acc[31]
  }

  /** Send the bit under the mask; after five data ones clear it and stay on it. */
  function Shift(u: Tx): (r: (Tx, bool))
    requires Shaped(u) && u.at < 32
    ensures Shaped(r.0)
  {
    var b := u.word[u.at];
    var acc := u.acc[1..] + [b];
    (if !u.flagging && FiveOnes(acc) then u.(acc := acc, word := u.word[u.at := false])
     else u.(acc := acc, at := u.at + 1),
     b)
  }

  function Tick(t: Tx): (r: (Tx, bool))
    requires Shaped(t)
    ensures Shaped(r.0)
  {
    Shift(if t.at == 32 then Refill(t) else t)
  }

  /** The state after `n` ticks and the bits they sent. */
  function TickMany(t: Tx, n: nat): (r: (Tx, Bits))
    requires Shaped(t)
    ensures Shaped(r.0) && |r.1| == n
  {
    if n == 0 then (t, [])
    else
      var r := TickMany(t, n - 1);
      var last := Tick(r.0);
      (last.0, r.1 + [last.1])
  }

  lemma TickOneMore(t: Tx, sent: Bits, s: Tx, u: Tx, b: bool)
    requires Shaped(t) && TickMany(t, |sent|) == (s, sent)
    requires Shaped(s) && u == Tick(s).0 && b == Tick(s).1
    ensures TickMany(t, |sent + [b]|) == (u, sent + [b])
  {
  }

  /** The underrun mark comes up exactly when a word is wanted and the ring is empty, and while
      only bits are asked for it stays. */
  lemma {:induction false} UnderrunExactly(t: Tx, n: nat)
    requires Shaped(t)
    ensures TickMany(t, n).0.underrun <==> t.underrun || EverStarved(t, n)
  {
    hide Tick, Starved, EverStarved;
    StarvedNext(t, n);
    if n > 0 {
      UnderrunExactly(t, n - 1);
      UnderrunOnce(TickMany(t, n - 1).0);
    }
  }

  /** Some word of a run was wanted of an empty ring. */
  ghost predicate EverStarved(t: Tx, n: nat)
    requires Shaped(t)
  {
    exists k | 0 <= k < n :: Starved(TickMany(t, k).0)
  }

  lemma StarvedNext(t: Tx, n: nat)
    requires Shaped(t)
    ensures EverStarved(t, n) <==> n > 0 && (EverStarved(t, n - 1) || Starved(TickMany(t, n - 1).0))
  {
    hide TickMany, Starved;
  }

  ghost predicate Starved(t: Tx) {
    t.at == 32 && t.queue == []
  }

  lemma UnderrunOnce(t: Tx)
    requires Shaped(t)
    ensures Tick(t).0.underrun <==> t.underrun || Starved(t)
  {
    hide BitsOf, Trips, FiveOnes;
  }

  // ----------------------------------------------------------------- what is queued

  /** What `faxvmi_write_frame` appends for one payload. */
  function Encoded(payload: seq<nat>): seq<nat> {
    [|payload| + 2] + Closed(payload)
  }

  /** A queue of whole frames, each behind its length. */
  ghost predicate WholeFrames(q: seq<nat>) {
    q == [] || (0 < Trips(q[0]) < |q| && WholeFrames(q[1 + Trips(q[0])..]))
  }

  ghost function FramesIn(q: seq<nat>): seq<seq<nat>>
    requires WholeFrames(q)
  {
    if q == [] then [] else [q[1..1 + Trips(q[0])]] + FramesIn(q[1 + Trips(q[0])..])
  }

  lemma EncodedAlone(payload: seq<nat>)
    requires |payload| + 2 < 0x10000
    ensures WholeFrames(Encoded(payload)) && FramesIn(Encoded(payload)) == [Closed(payload)]
  {
    var e, c := Encoded(payload), Closed(payload);
    assert e[0] == |c| && Trips(e[0]) == |c|;
    assert e[1 + |c|..] == [];
    assert e[1..1 + |c|] == c;
  }

  /** A length, that many elements, and whole frames behind them. */
  lemma WholeCons(q: seq<nat>, n: nat)
    requires q != [] && n == 1 + Trips(q[0]) && 2 <= n <= |q| && WholeFrames(q[n..])
    ensures WholeFrames(q) && FramesIn(q) == [q[1..n]] + FramesIn(q[n..])
  {
  }

  lemma {:induction false} FramesInAppend(q: seq<nat>, payload: seq<nat>)
    requires WholeFrames(q) && |payload| + 2 < 0x10000
    ensures WholeFrames(q + Encoded(payload))
    ensures FramesIn(q + Encoded(payload)) == FramesIn(q) + [Closed(payload)]
    decreases |q|
  {
    var e := Encoded(payload);
    if q == [] {
      assert q + e == e;
      EncodedAlone(payload);
    } else {
      var n := 1 + Trips(q[0]);
      FramesInAppend(q[n..], payload);
      WholeCons(q, n);
      hide WholeFrames, FramesIn, Encoded, Closed;
      SliceAppend(q, e, n);
      WholeCons(q + e, n);
    }
  }

  lemma SliceAppend(q: seq<nat>, e: seq<nat>, n: nat)
    requires 1 <= n <= |q|
    ensures (q + e)[0] == q[0] && (q + e)[1..n] == q[1..n] && (q + e)[n..] == q[n..] + e
  {
  }

  // --------------------------------------------------------------- what is still owed

  /** Ones that end the accumulator, counted to five. */
  function Trail(acc: Bits): (k: nat)
    requires |acc| == 32
    ensures k <= 5 && (k == 5 <==> FiveOnes(acc))
  {
    if !acc[31] then 0 else if !acc[30] then 1 else if !acc[29] then 2
    else if !acc[28] then 3 else if !acc[27] then 4 else 5
  }

  /** Between refills the transmitter is inside a flag or inside a frame; a data bit
      that must be followed by a stuffed zero has already been cleared. */
  ghost predicate Valid(t: Tx) {
    && Shaped(t) && t.left <= |t.queue| && WholeFrames(t.queue[t.left..])
    && (t.flagging ==> (if t.at < 32 then !t.word[31] else t.left != 0 ==> !t.acc[31]))
    && (!t.flagging ==> if t.at == 32 then Trail(t.acc) < 5 else FiveOnes(t.acc) ==> !t.word[t.at])
  }

  /** The data bits of the current frame not yet sent, past the current word. */
  function Ahead(t: Tx): Bits
    requires t.left <= |t.queue|
  {
    FrameBits(t.queue[..t.left])
  }

  /** The line bits the current segment still needs. */
  function Owed(t: Tx): Bits
    requires Shaped(t) && t.left <= |t.queue|
  {
    if t.flagging then t.word[t.at..] + Stuff(Ahead(t), 0)
    else if FiveOnes(t.acc) then [false] + Stuff((if t.at < 32 then t.word[t.at + 1..] else []) + Ahead(t), 0)
    else Stuff(t.word[t.at..] + Ahead(t), Trail(t.acc))
  }

  /** The frames in the ring that have not been started. */
  ghost function Waiting(t: Tx): seq<seq<nat>>
    requires Valid(t)
  {
    FramesIn(t.queue[t.left..])
  }

  /** Appending to the ring changes nothing that is owed. */
  lemma OwedAppend(t: Tx, payload: seq<nat>)
    requires Valid(t) && |payload| + 2 < 0x10000
    ensures var u := t.(queue := t.queue + Encoded(payload));
            Valid(u) && Owed(u) == Owed(t) && Waiting(u) == Waiting(t) + [Closed(payload)]
  {
    hide FramesIn, WholeFrames, Encoded, Closed, Stuff, FrameBits, Trail;
    var u := t.(queue := t.queue + Encoded(payload));
    FramesInAppend(t.queue[t.left..], payload);
    assert u.queue[u.left..] == t.queue[t.left..] + Encoded(payload);
    assert u.queue[..u.left] == t.queue[..t.left];
  }

  lemma TrailGrows(acc: Bits, b: bool)
    requires |acc| == 32 && Trail(acc) < 5
    ensures Trail(acc[1..] + [b]) == if b then Trail(acc) + 1 else 0
  {
  }

  lemma TrailClears(acc: Bits)
    requires |acc| == 32
    ensures Trail(acc[1..] + [false]) == 0
  {
  }

  ghost predicate Pays(t: Tx, u: Tx, b: bool) {
    && Valid(t) && Valid(u) && u.queue == t.queue && u.left == t.left
    && Owed(t) == [b] + Owed(u)
  }

  lemma FlagPays(t: Tx)
    requires Valid(t) && t.at < 32 && t.flagging
    ensures Pays(t, Shift(t).0, Shift(t).1)
  {
    var b, rest := t.word[t.at], t.word[t.at + 1..];
    assert t.word[t.at..] == [b] + rest;
    assert Owed(t) == [b] + (rest + Stuff(Ahead(t), 0));
  }

  lemma StuffedZeroPays(t: Tx)
    requires Valid(t) && t.at < 32 && !t.flagging && FiveOnes(t.acc)
    ensures Pays(t, Shift(t).0, Shift(t).1)
  {
    TrailClears(t.acc);
  }

  /** The data bits from the current place on. */
  function Data(t: Tx): Bits
    requires Shaped(t) && t.left <= |t.queue|
  {
    t.word[t.at..] + Ahead(t)
  }

  lemma DataAhead(t: Tx)
    requires Shaped(t) && t.left <= |t.queue| && t.at < 32
    ensures Data(t) == [t.word[t.at]] + (t.word[t.at + 1..] + Ahead(t))
  {
  }

  lemma FifthOnePays(t: Tx)
    requires Valid(t) && t.at < 32 && !t.flagging && Trail(t.acc) == 4 && t.word[t.at]
    ensures Pays(t, Shift(t).0, Shift(t).1)
  {
    var u := Shift(t).0;
    TrailGrows(t.acc, true);
    DataAhead(t);
    assert u.word[t.at + 1..] == t.word[t.at + 1..];
    var rest := t.word[t.at + 1..] + Ahead(t);
    assert Data(t)[1..] == rest;
    assert Owed(t) == [true, false] + Stuff(rest, 0);
    assert Owed(u) == [false] + Stuff(rest, 0);
  }

  lemma DataPays(t: Tx)
    requires Valid(t) && t.at < 32 && !t.flagging && Trail(t.acc) < if t.word[t.at] then 4 else 5
    ensures Pays(t, Shift(t).0, Shift(t).1)
  {
    TrailGrows(t.acc, t.word[t.at]);
    DataAhead(t);
    var rest := t.word[t.at + 1..] + Ahead(t);
    assert Data(t)[1..] == rest;
    assert Owed(t) == [t.word[t.at]] + Stuff(rest, if t.word[t.at] then Trail(t.acc) + 1 else 0);
  }

  /** Inside a segment every tick sends the first bit owed. */
  lemma ShiftPays(t: Tx)
    requires Valid(t) && t.at < 32
    ensures Pays(t, Shift(t).0, Shift(t).1)
  {
    if t.flagging {
      FlagPays(t);
    } else if FiveOnes(t.acc) {
      StuffedZeroPays(t);
    } else if Trail(t.acc) == 4 && t.word[t.at] {
      FifthOnePays(t);
    } else {
      DataPays(t);
    }
  }

  lemma FetchOctet(t: Tx)
    requires Valid(t) && t.at == 32 && t.left != 0
    ensures var u := Refill(t); Valid(u) && Owed(u) == Owed(t) && Waiting(u) == Waiting(t)
  {
    var u := Refill(t);
    assert t.queue[..t.left] == [t.queue[0]] + u.queue[..u.left];
    FrameBitsConcat([t.queue[0]], u.queue[..u.left]);
    FrameBitsOne(t.queue[0]);
    LowBitsOf(t.queue[0], 32, 8);
    assert u.word[24..] + Ahead(u) == Ahead(t);
    assert t.queue[t.left..] == u.queue[u.left..];
    assert t.word[32..] == [];
    assert t.word[t.at..] + Ahead(t) == Ahead(t);
    if t.flagging {
      assert Trail(t.acc) == 0;
    }
    assert Owed(t) == Stuff(Ahead(t), Trail(t.acc));
  }

  /** A tick while something is owed pays its first bit and leaves the rest queued. */
  lemma TickPays(t: Tx)
    requires Valid(t) && (t.at < 32 || t.left != 0)
    ensures var u, b := Tick(t).0, Tick(t).1;
            && Valid(u) && Waiting(u) == Waiting(t)
            && Owed(t) == [b] + Owed(u)
  {
    if t.at == 32 {
      FetchOctet(t);
      ShiftPays(Refill(t));
    } else {
      ShiftPays(t);
    }
  }

  lemma StartIdle(t: Tx)
    requires Valid(t) && t.at == 32 && t.left == 0 && t.queue == []
    ensures var r := Refill(t); Valid(r) && Owed(r) == SegmentBits(Idle) && Waiting(r) == []
  {
    var r := Refill(t);
    assert r.word[24..] == FLAG;
    assert r.queue[..0] == [] && r.queue[0..] == [];
  }

  lemma StartFrame(t: Tx)
    requires Valid(t) && t.at == 32 && t.left == 0 && t.queue != []
    ensures var r := Refill(t);
            && Valid(r) && Waiting(t) != []
            && Owed(r) == SegmentBits(Frame(Waiting(t)[0])) && Waiting(r) == Waiting(t)[1..]
  {
    var r, n := Refill(t), Trips(t.queue[0]);
    assert t.queue[0..] == t.queue;
    assert r.queue[..n] == t.queue[1..1 + n];
    assert r.queue[n..] == t.queue[1 + n..];
    assert r.word[8..] == FLAG + FLAG + FLAG;
    JoinFlags(Stuff(Ahead(r), 0));
  }

  lemma JoinFlags(d: Bits)
    ensures FLAG + FLAG + FLAG + d == FLAG + (FLAG + (FLAG + d))
  {
  }

  lemma NothingOwed(t: Tx)
    requires Valid(t) && t.at == 32 && t.left == 0
    ensures Owed(t) == [] && (Waiting(t) == [] <==> t.queue == [])
  {
    assert t.word[32..] == [] && t.queue[..0] == [] && t.queue[0..] == t.queue;
  }

  /** The segment that follows once nothing is owed: the next frame, or an idle flag
      when there is none. */
  ghost function Upcoming(t: Tx): Segment
    requires Valid(t)
  {
    if Waiting(t) == [] then Idle else Frame(Waiting(t)[0])
  }

  /** A tick with nothing owed starts that segment. */
  lemma TickStarts(t: Tx)
    requires Valid(t) && t.at == 32 && t.left == 0
    ensures var u, b := Tick(t).0, Tick(t).1;
            && Valid(u)
            && [b] + Owed(u) == SegmentBits(Upcoming(t))
            && Waiting(u) == if Waiting(t) == [] then [] else Waiting(t)[1..]
  {
    NothingOwed(t);
    if t.queue == [] {
      StartIdle(t);
    } else {
      StartFrame(t);
    }
    ShiftPays(Refill(t));
  }
}
