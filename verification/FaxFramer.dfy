/** The framer objects themselves: the ring the frame writer fills, the packer that
    drains it into line elements, and the unpacker with its in-place repair pass.
    Each method is proved to do what the pure step functions of the codec say. */
module FaxFramer {
  import opened Seqs
  import opened Bits
  import opened Fcs
  import opened FcsDetection
  import T = HdlcTransmitter
  import R = HdlcReceiver

  // --------------------------------------------------------------------------- the ring

  /** The element ring of `struct faxvmi_framer` and its two cursors. */
  class Ring {
    const fifo: array<nat>
    var rd: nat
    var wr: nat
    /** What lies between the cursors, oldest first. */
    ghost var cells: seq<nat>

    ghost function Slot(i: nat): nat
      reads `rd
    {
      if rd + i < fifo.Length then rd + i else rd + i - fifo.Length
    }

    ghost predicate Valid()
      reads this, fifo
    {
      && 0 < fifo.Length < 0x10000 && rd < fifo.Length
      && |cells| <= fifo.Length && wr == Slot(|cells|)
      && forall i | 0 <= i < |cells| :: fifo[Slot(i)] == cells[i]
    }

    constructor (size: nat)
      requires 0 < size < 0x10000
      ensures Valid() && cells == [] && fifo.Length == size && fresh(fifo)
    {
      fifo := new nat[size](_ => 0);
      rd, wr, cells := 0, 0, [];
    }

    /** `fifo[wr++] = x`, wrapped. */
    method Put(x: nat)
      requires Valid() && |cells| < fifo.Length
      modifies this`wr, this`cells, fifo
      ensures Valid() && cells == old(cells) + [x]
    {
      fifo[wr] := x;
      wr := wr + 1;
      if wr >= fifo.Length {
        wr := 0;
      }
      cells := cells + [x];
    }

    /** `fifo[rd]`, and the read cursor on, wrapped. */
    method Take() returns (x: nat)
      requires Valid() && cells != []
      modifies this`rd, this`cells
      ensures Valid() && x == old(cells)[0] && cells == old(cells)[1..]
    {
      x := fifo[rd];
      assert Slot(0) == rd;
      rd := rd + 1;
      if rd >= fifo.Length {
        rd := 0;
      }
      cells := cells[1..];
      assert forall i | 0 <= i < |cells| :: Slot(i) == old(Slot(i + 1));
    }
  }

  // ------------------------------------------------------------------- the transmitter

  class TxFramer {
    const ring: Ring
    var count: nat
    var packWord: Bits
    var packAt: nat
    var packAcc: Bits
    var packBit: nat
    var frameLeft: nat
    var flagging: bool
    var underrun: bool

    ghost predicate Valid()
      reads this, ring, ring.fifo
    {
      ring.Valid() && count == |ring.cells| && |packWord| == 32 && |packAcc| == 32 && packAt <= 32
    }

    /** The state the step functions speak of. */
    ghost function State(): (t: T.Tx)
      requires |packWord| == 32 && |packAcc| == 32 && packAt <= 32
      reads this, ring
      ensures T.Shaped(t)
    {
      T.Tx(ring.cells, frameLeft, packWord, packAt, packAcc, flagging, underrun)
    }

    /** `FAXVMI_create`. */
    constructor (size: nat)
      requires 0 < size < 0x10000
      ensures Valid() && State() == T.CREATED && packBit == 0 && ring.fifo.Length == size
      ensures fresh(ring) && fresh(ring.fifo)
    {
      ring := new Ring(size);
      count := 0;
      packWord, packAt, packAcc, packBit := Ones(32), 32, Ones(32), 0;
      frameLeft, flagging, underrun := 0, true, true;
    }

    /** The copy loop of `faxvmi_write_frame`. */
    method CopyPayload(payload: seq<nat>)
      requires ring.Valid() && |ring.cells| + |payload| < ring.fifo.Length
      requires count + |payload| < ring.fifo.Length
      modifies ring`wr, ring`cells, ring.fifo, `count, `underrun
      ensures ring.Valid() && ring.cells == old(ring.cells) + payload
      ensures count == old(count) + |payload| && underrun == (old(underrun) && payload == [])
    {
      var taken := underrun;
      var j := 0;
      while j < |payload|
        invariant 0 <= j <= |payload| && count == old(count) + j
        invariant ring.Valid() && ring.cells == old(ring.cells) + payload[..j]
        invariant taken == (old(underrun) && j == 0)
      {
        ring.Put(payload[j]);
        assert payload[..j + 1] == payload[..j] + [payload[j]];
        count := count + 1;
        taken := false;
        j := j + 1;
      }
      underrun := taken;
    }

    /** One frame of `faxvmi_write_frame`: refused whole unless there is room for it with
        its length and check octets, else queued whole. */
    method WriteFrame(payload: seq<nat>) returns (ok: bool)
      requires Valid() && |payload| < 0x8000
      modifies ring`wr, ring`cells, ring.fifo, `count, `underrun
      ensures Valid() && ok == (old(count) + |payload| + 3 < ring.fifo.Length)
      ensures ring.cells == if ok then old(ring.cells) + T.Encoded(payload) else old(ring.cells)
      ensures underrun == (old(underrun) && (!ok || payload == []))
    {
      hide Value, Fcs16, T.Encoded;
      ok := count + |payload| + 3 < ring.fifo.Length;
      if ok {
        ring.Put(|payload| + 2);
        count := count + 3;
        var fcs := GenFcs16(payload, |payload|);
        assert payload[..|payload|] == payload;
        CopyPayload(payload);
        ring.Put(Value(fcs[..8]));
        ring.Put(Value(fcs[8..]));
        EncodedParts(old(ring.cells), payload, fcs);
      }
    }

    /** The refill at the top of the packer's loop. */
    method Refill()
      requires Valid() && packAt == 32
      modifies ring`rd, ring`cells, `count, `packWord, `packAt, `flagging, `frameLeft, `underrun
      ensures Valid() && State() == T.Refill(old(State()))
    {
      hide BitsOf, Trips;
      if count != 0 {
        var element := ring.Take();
        if frameLeft != 0 {
          packWord, packAt, flagging, frameLeft := BitsOf(element, 32), 24, false, frameLeft - 1;
        } else {
          packWord, packAt, flagging, frameLeft := T.THREE_FLAGS, 8, true, Trips(element);
        }
        count := count - 1;
      } else {
        packWord, packAt, flagging, underrun := T.ONE_FLAG, 24, true, true;
      }
    }

    /** One pass of the packer's loop up to the element test. */
    method Tick() returns (b: bool)
      requires Valid()
      modifies ring`rd, ring`cells, `count, `packWord, `packAt, `packAcc, `flagging, `frameLeft, `underrun
      ensures Valid() && State() == T.Tick(old(State())).0 && b == T.Tick(old(State())).1
      ensures packAcc == old(packAcc)[1..] + [b]
    {
      hide BitsOf, Trips, T.Refill;
      if packAt == 32 {
        Refill();
      }
      b := packWord[packAt];
      packAcc := packAcc[1..] + [b];
      if !flagging && T.FiveOnes(packAcc) {
        packWord := packWord[packAt := false];
      } else {
        packAt := packAt + 1;
      }
    }

    /** The same pass as one more of a run of ticks. */
    method TickAgain(ghost start: T.Tx, ghost sent: Bits) returns (b: bool)
      requires Valid() && T.Shaped(start) && T.TickMany(start, |sent|) == (State(), sent)
      modifies ring`rd, ring`cells, `count, `packWord, `packAt, `packAcc, `flagging, `frameLeft, `underrun
      ensures Valid() && T.TickMany(start, |sent + [b]|) == (State(), sent + [b])
      ensures packAcc == old(packAcc)[1..] + [b]
    {
      b := Tick();
      T.TickOneMore(start, sent, old(State()), State(), b);
    }

    /** The passes that fill one element: `width` line bits from the accumulator's end. */
    method PackElement(width: nat, ghost start: T.Tx, ghost sent: Bits) returns (element: Bits, ghost part: Bits)
      requires Valid() && packBit == 0 && 1 <= width <= 16
      requires T.Shaped(start) && T.TickMany(start, |sent|) == (State(), sent)
      modifies ring`rd, ring`cells, `count, `packWord, `packAt, `packAcc, `packBit, `flagging, `frameLeft, `underrun
      ensures Valid() && packBit == 0 && |part| == width && element == Zeros(16 - width) + part
      ensures T.TickMany(start, |sent + part|) == (State(), sent + part)
    {
      hide T.TickMany, T.Tick;
      part := [];
      assert sent + part == sent;
      while packBit != width
        invariant Valid() && packBit == |part| <= width && packAcc[32 - |part|..] == part
        invariant T.TickMany(start, |sent + part|) == (State(), sent + part)
      {
        ghost var acc := packAcc;
        var b := TickAgain(start, sent + part);
        LastBits(acc, part, b);
        assert (sent + part) + [b] == sent + (part + [b]);
        part := part + [b];
        packBit := packBit + 1;
      }
      packBit := 0;
      element := Zeros(16 - width) + packAcc[32 - width..];
    }

    /** `faxvmi_hdlc_frame`'s loop: `packCount` elements of `width` line bits each, which
        end to end are the bits of that many ticks. */
    method Pack(packCount: int, width: nat) returns (out: seq<Bits>, ghost sent: Bits)
      requires Valid() && packBit == 0 && 1 <= width <= 16
      modifies ring`rd, ring`cells, `count, `packWord, `packAt, `packAcc, `packBit, `flagging, `frameLeft, `underrun
      ensures Valid() && packBit == 0 && |out| == Trips(packCount)
      ensures Elements(out) && LineOf(out, width) == sent
      ensures T.TickMany(old(State()), |sent|) == (State(), sent)
    {
      out, sent := [], [];
      var n := Trips(packCount);
      ghost var start := State();
      while n != 0
        invariant Valid() && packBit == 0 && |out| + n == Trips(packCount)
        invariant Elements(out) && LineOf(out, width) == sent
        invariant T.TickMany(start, |sent|) == (State(), sent)
      {
        var element;
        ghost var part;
        element, part := PackElement(width, start, sent);
        LineOfSnoc(out, element, width, part);
        out := out + [element];
        sent := sent + part;
        n := n - 1;
      }
    }
  }

  // ---------------------------------------------------------------------- the receiver

  class RxFramer {
    /** `frame_size` elements and the one the repair pass reads past them. */
    const frame: array<nat>
    const maxFrame: nat
    var acc: Bits
    var bit: nat
    var ones: int
    var flagsWanted: nat
    var inFrame: bool
    var frameLen: nat
    var overflow: bool
    var word: Bits
    var at: nat

    ghost function Config(): R.Config
      requires frame.Length >= 1
    {
      R.Config(frame.Length - 1, maxFrame)
    }

    /** The state the step functions speak of, with `out` handed on so far. */
    ghost function State(out: seq<seq<nat>>): R.Rx
      reads this, frame
    {
      R.Rx(acc, bit, ones, flagsWanted, inFrame, frame[..], frameLen, overflow, out)
    }

    ghost predicate Valid()
      reads this, frame
    {
      frame.Length >= 2 && R.Valid(Config(), State([])) && |word| == 16 && at <= 16
    }

    /** `FAXVMI_create`. */
    constructor (frameSize: nat, max: nat)
      requires frameSize >= 1
      ensures Valid() && State([]) == R.Created(Config()) && Pending() == []
      ensures Config() == R.Config(frameSize, max) && fresh(frame)
    {
      frame := new nat[frameSize + 1](_ => 0);
      maxFrame := max;
      acc, bit, ones, flagsWanted, inFrame := Ones(32), 0, 0, 2, false;
      frameLen, overflow, word, at := 0, false, Ones(16), 16;
      new;
      assert frame[..] == seq(frameSize + 1, _ => 0);
    }

    /** The bits of the current element not yet taken. */
    ghost function Pending(): Bits
      requires |word| == 16 && at <= 16
      reads `word, `at
    {
      word[at..]
    }

    /** The three readings of the repair pass, with the octets put back on failure. */
    method Attempt(n: nat) returns (ok: bool)
      requires 2 <= frame.Length && n <= frame.Length && n < 0x10000
      modifies frame
      ensures ok == R.Attempt(old(frame[..]), n).0
      ensures frame[..] == R.Attempt(old(frame[..]), n).1
    {
      ghost var was: seq<nat> := frame[..];
      var fcs := GenFcs16(frame[..], n);
      if fcs == GOOD {
        return true;
      }
      var save0 := frame[0];
      frame[0] := R.ADDRESS;
      assert frame[..] == was[0 := R.ADDRESS];
      fcs := GenFcs16(frame[..], n);
      if fcs == GOOD {
        return true;
      }
      var save1 := frame[1];
      frame[1] := R.CONTROL;
      assert frame[..] == was[0 := R.ADDRESS][1 := R.CONTROL];
      fcs := GenFcs16(frame[..], n);
      if fcs == GOOD {
        return true;
      }
      frame[0] := save0;
      frame[1] := save1;
      assert frame[..] == was;
      return false;
    }

    /** The buffer walked one bit to the left, front to back. */
    method ShiftLeft(len: nat)
      requires len < frame.Length
      modifies frame
      ensures frame[..] == R.Shifted(old(frame[..]), len)
    {
      hide Value, OctetBits;
      var i := 0;
      while i < len
        invariant 0 <= i <= len
        invariant forall j | 0 <= j < i :: frame[j] == R.ShiftedOctet(old(frame[j]), old(frame[j + 1]))
        invariant forall j | i <= j < frame.Length :: frame[j] == old(frame[j])
      {
        var next := frame[i + 1];
        frame[i] := ShiftOne(frame[i], next);
        i := i + 1;
      }
    }

    /** An octet one bit to the left, and the next one's first bit behind it. */
    static method ShiftOne(here: nat, next: nat) returns (w: nat)
      ensures w == R.ShiftedOctet(here, next)
    {
      w := Value(OctetBits(here)[1..] + [OctetBits(next)[0]]);
    }

    /** One walk and its three readings. */
    method Walk(len: nat, shift: nat, ghost was: seq<nat>) returns (ok: bool)
      requires 2 <= frame.Length == |was| && 1 <= len < frame.Length && len < 0x10000
      requires 1 <= shift <= R.MAX_BIT_SHIFT && frame[..] == R.Walked(was, len, shift - 1)
      modifies frame
      ensures ok ==> R.Realign(was, len, shift) == R.Repaired(frame[..], len - 1, shift)
      ensures !ok ==> frame[..] == R.Walked(was, len, shift)
      ensures !ok && shift < R.MAX_BIT_SHIFT ==> R.Realign(was, len, shift) == R.Realign(was, len, shift + 1)
      ensures !ok && shift == R.MAX_BIT_SHIFT ==> R.Realign(was, len, shift) == R.Repaired(frame[..], 0, shift)
    {
      ShiftLeft(len);
      ok := Attempt(len - 1);
    }

    /** The repair pass: the frame as received, then up to seven walks. */
    method Repair(len: nat) returns (n: nat)
      requires 2 <= frame.Length && 1 <= len < frame.Length && len < 0x10000
      modifies frame
      ensures frame[..] == R.Repair(old(frame[..]), len).frame
      ensures n == R.Repair(old(frame[..]), len).len
    {
      ghost var was: seq<nat> := frame[..];
      var ok := Attempt(len);
      if ok {
        return len;
      }
      n := Realign(len, was);
    }

    method Realign(len: nat, ghost was: seq<nat>) returns (n: nat)
      requires 2 <= frame.Length && 1 <= len < frame.Length && len < 0x10000 && frame[..] == was
      modifies frame
      ensures frame[..] == R.Realign(was, len, 1).frame
      ensures n == R.Realign(was, len, 1).len
    {
      hide R.Realign, R.Shifted;
      var shift := 1;
      ghost var goal := R.Realign(was, len, 1);
      while shift <= R.MAX_BIT_SHIFT
        invariant 1 <= shift <= R.MAX_BIT_SHIFT + 1
        invariant frame[..] == R.Walked(was, len, shift - 1)
        invariant shift <= R.MAX_BIT_SHIFT ==> goal == R.Realign(was, len, shift)
        invariant shift > R.MAX_BIT_SHIFT ==> goal == R.Repaired(frame[..], 0, R.MAX_BIT_SHIFT)
      {
        var ok := Walk(len, shift, was);
        if ok {
          return len - 1;
        }
        shift := shift + 1;
      }
      n := 0;
    }

    /** One line bit through destuffing, flag detection and octet assembly. */
    method TakeBit(b: bool, ghost out: seq<seq<nat>>) returns (emitted: seq<seq<nat>>)
      requires Valid() && R.Valid(Config(), State(out)) && frame.Length < 0x10000
      modifies frame, `acc, `bit, `ones, `flagsWanted, `inFrame, `frameLen, `overflow
      ensures Valid() && |emitted| <= 1
      ensures State(out + emitted) == R.Bit(Config(), old(State(out)), b)
    {
      hide R.Push, R.EndRun, R.Increment;
      emitted := [];
      assert out + [] == out;
      if ones == 5 && !b {
      } else if ones != 6 {
        Assemble(b, out);
      } else {
        emitted := EndRun(b, out);
      }
      ones := if b then R.Increment(ones) else 0;
    }

    /** A data bit: into the accumulator, and every eighth time an octet into the frame. */
    method Assemble(b: bool, ghost out: seq<seq<nat>>)
      requires Valid() && R.Valid(Config(), State(out))
      modifies frame, `acc, `bit, `inFrame, `frameLen
      ensures Valid() && State(out) == R.Push(Config(), old(State(out)), b)
    {
      hide Value;
      acc := acc[1..] + [b];
      bit := bit + 1;
      if bit == 8 {
        if flagsWanted == 0 && frameLen < frame.Length - 1 {
          inFrame := true;
          frame[frameLen] := Value(acc[24..]);
          frameLen := frameLen + 1;
        }
        bit := 0;
      }
    }

    /** The bit after six ones: a flag is counted or closes a frame, a one aborts. */
    method EndRun(b: bool, ghost out: seq<seq<nat>>) returns (emitted: seq<seq<nat>>)
      requires Valid() && R.Valid(Config(), State(out)) && frame.Length < 0x10000
      modifies frame, `bit, `flagsWanted, `inFrame, `frameLen, `overflow
      ensures Valid() && |emitted| <= 1
      ensures State(out + emitted) == R.EndRun(Config(), old(State(out)), b)
    {
      hide R.Repair;
      emitted := [];
      assert out + [] == out;
      if !b && flagsWanted != 0 {
        flagsWanted := flagsWanted - 1;
      } else if !b && inFrame {
        frameLen := Repair(frameLen);
        if frameLen >= maxFrame {
          overflow := true;
        } else {
          emitted := [frame[..frameLen]];
          frameLen := 0;
        }
      }
      inFrame := false;
      bit := 0;
    }

    /** The next line bit: the mask moves on, fetching element `i` when it has run out. */
    method NextBit(src: seq<Bits>, i: nat, width: nat) returns (b: bool, j: nat)
      requires |word| == 16 && at <= 16 && 1 <= width <= 16 && Elements(src) && i < |src|
      modifies `word, `at
      ensures |word| == 16 && at <= 16 && i <= j <= |src| && (j == i ==> at > old(at))
      ensures old(Pending()) + LineFrom(src, i, width) == [b] + (Pending() + LineFrom(src, j, width))
      ensures j == |src| ==> |Pending()| == width - 1
    {
      j := i;
      if at == 16 {
        assert src[i..][0] == src[i] && src[i..][1..] == src[i + 1..];
        at, word := 16 - width, src[i];
        j := i + 1;
      }
      b := word[at];
      assert word[at..] == [b] + word[at + 1..];
      at := at + 1;
    }

    /** `faxvmi_hdlc_unframe`: the elements' bits in order.  The loop stops as soon as the
        last element has been fetched and its first bit taken; the rest stay pending. */
    method Unframe(src: seq<Bits>, width: nat) returns (frames: seq<seq<nat>>, ghost taken: Bits)
      requires Valid() && frame.Length < 0x10000 && 1 <= width <= 16 && Elements(src)
      modifies this, frame
      ensures Valid()
      ensures old(Pending()) + LineOf(src, width) == taken + Pending()
      ensures State(frames) == R.Receive(Config(), old(State([])).(overflow := false), taken)
      ensures src != [] ==> |Pending()| == width - 1
    {
      hide R.Bit, R.Receive, LineFrom, Elements;
      LineFromStart(src, width);
      frames, taken := [], [];
      overflow := false;
      ghost var start, line := State([]), Pending() + LineFrom(src, 0, width);
      ReceiveNone(Config(), start);
      var i := 0;
      while i < |src|
        invariant 0 <= i <= |src| && Valid()
        invariant line == taken + (Pending() + LineFrom(src, i, width))
        invariant R.Valid(Config(), start) && State(frames) == R.Receive(Config(), start, taken)
        invariant i == |src| && src != [] ==> |Pending()| == width - 1
        decreases |src| - i, 16 - at
      {
        var b;
        b, i := NextBit(src, i, width);
        Associate(taken, [b], Pending() + LineFrom(src, i, width));
        ReceiveOneMore(Config(), start, taken, b);
        var emitted := TakeBit(b, frames);
        frames, taken := frames + emitted, taken + [b];
      }
    }
  }

  ghost predicate Elements(elements: seq<Bits>) {
    forall i | 0 <= i < |elements| :: |elements[i]| == 16
  }

  /** The line bits of a run of elements: the low `width` of each. */
  ghost function LineOf(elements: seq<Bits>, width: nat): Bits
    requires width <= 16 && Elements(elements)
  {
    if elements == [] then [] else elements[0][16 - width..] + LineOf(elements[1..], width)
  }

  /** The line bits of the elements from `i` on. */
  ghost function LineFrom(elements: seq<Bits>, i: nat, width: nat): Bits
    requires width <= 16 && Elements(elements) && i <= |elements|
  {
    LineOf(elements[i..], width)
  }

  lemma LineFromStart(elements: seq<Bits>, width: nat)
    requires width <= 16 && Elements(elements)
    ensures LineFrom(elements, 0, width) == LineOf(elements, width)
    ensures LineFrom(elements, |elements|, width) == []
  {
    assert elements[0..] == elements && elements[|elements|..] == [];
  }

  lemma ReceiveNone(c: R.Config, s: R.Rx)
    requires R.Valid(c, s)
    ensures R.Receive(c, s, []) == s
  {
  }

  lemma ReceiveOneMore(c: R.Config, s: R.Rx, bits: Bits, b: bool)
    requires R.Valid(c, s)
    ensures R.Receive(c, s, bits + [b]) == R.Bit(c, R.Receive(c, s, bits), b)
  {
    R.ReceiveConcat(c, s, bits, [b]);
    assert [b][1..] == [];
    assert R.Receive(c, R.Receive(c, s, bits), [b]) == R.Receive(c, R.Bit(c, R.Receive(c, s, bits), b), []);
  }

  lemma EncodedParts(was: seq<nat>, payload: seq<nat>, fcs: Reg)
    requires fcs == Fcs16(payload)
    ensures was + T.Encoded(payload)
         == was + [|payload| + 2] + payload + [Value(fcs[..8])] + [Value(fcs[8..])]
  {
  }

  lemma {:induction false} LineOfSnoc(elements: seq<Bits>, e: Bits, width: nat, part: Bits)
    requires width <= 16 && |part| == width && e == Zeros(16 - width) + part && Elements(elements)
    ensures LineOf(elements + [e], width) == LineOf(elements, width) + part
    decreases |elements|
  {
    if elements == [] {
      assert ([] + [e])[1..] == [];
      assert e[16 - width..] == part;
    } else {
      assert (elements + [e])[1..] == elements[1..] + [e];
      LineOfSnoc(elements[1..], e, width, part);
    }
  }

  lemma LastBits(acc: Bits, part: Bits, b: bool)
    requires |acc| == 32 && |part| < 32 && acc[32 - |part|..] == part
    ensures (acc[1..] + [b])[31 - |part|..] == part + [b]
  {
  }
}
