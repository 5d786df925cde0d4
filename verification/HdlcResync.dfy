/** Recovery after noise: from which receiver states the frames on a clean line are handed
    on again, for every frame size and every report limit. */
module HdlcResync {
  import opened Seqs
  import opened Bits
  import opened Fcs
  import opened FcsDetection
  import opened HdlcLine
  import opened HdlcReceiver
  import HdlcLink

  // --------------------------------------------------------------------------- deafness

  /** A full buffer that no flag will close. */
  ghost predicate Deaf(c: Config, s: Rx) {
    Valid(c, s) && s.flen == c.frameSize && !s.inFrame
  }

  /** A seventh one over a full buffer leaves it so. */
  lemma AbortDeafens(c: Config, s: Rx)
    requires Valid(c, s) && s.inFrame && s.flen == c.frameSize && s.ones == 6
    ensures Deaf(c, Bit(c, s, true))
  {
  }

  lemma DeafBit(c: Config, s: Rx, b: bool)
    requires Deaf(c, s)
    ensures Deaf(c, Bit(c, s, b)) && Bit(c, s, b).out == s.out
  {
  }

  /** A deaf receiver hands nothing on again, whatever arrives. */
  lemma {:induction false} DeafForever(c: Config, s: Rx, bits: Bits)
    requires Deaf(c, s)
    ensures Deaf(c, Receive(c, s, bits)) && Receive(c, s, bits).out == s.out
    decreases |bits|
  {
    if bits != [] {
      hide Bit, Deaf;
      DeafBit(c, s, bits[0]);
      DeafForever(c, Bit(c, s, bits[0]), bits[1..]);
    }
  }

  /** So does a closing flag over a full buffer with a good reading, where that is as much as
      the receiver may report: the frame is refused and stays. */
  ghost predicate CloseDeafens(c: Config, s: Rx)
    requires Valid(c, s)
  {
    s.inFrame && c.maxFrame <= c.frameSize && s.flen == c.frameSize && Attempt(s.frame, s.flen).0
  }

  // -------------------------------------------------------------- states and single bits

  /** Octets are kept only once both opening flags have been seen. */
  ghost predicate Consistent(s: Rx) {
    s.flagsWanted <= 2 && (s.inFrame ==> s.flagsWanted == 0)
  }

  lemma ConsistentBit(c: Config, s: Rx, b: bool)
    requires Valid(c, s) && Consistent(s)
    ensures Consistent(Bit(c, s, b))
  {
    hide Repair;
  }

  /** Every state a receiver reaches is of that kind, whatever arrived. */
  lemma {:induction false} AlwaysConsistent(c: Config, s: Rx, bits: Bits)
    requires Valid(c, s) && Consistent(s)
    ensures Consistent(Receive(c, s, bits))
    decreases |bits|
  {
    if bits != [] {
      hide Bit, Consistent;
      ConsistentBit(c, s, bits[0]);
      AlwaysConsistent(c, Bit(c, s, bits[0]), bits[1..]);
    }
  }

  /** A close deafens exactly as `CloseDeafens` says. */
  lemma CloseLeaves(c: Config, s: Rx)
    requires Valid(c, s) && s.inFrame
    ensures var t := Close(c, s); t.flen == c.frameSize <==> CloseDeafens(c, s)
    ensures s.out <= Close(c, s).out && Close(c, s).flagsWanted == s.flagsWanted
  {
    hide Attempt, Realign;
  }

  /** A zero: dropped, pushed, or the end of a flag. */
  lemma ZeroBit(c: Config, s: Rx)
    requires Valid(c, s) && Consistent(s)
    ensures var t := Bit(c, s, false);
            && Consistent(t) && t.ones == 0 && s.out <= t.out && t.flagsWanted <= s.flagsWanted
            && (s.ones == 6 ==> t.bit == 0 && !t.inFrame)
            && (s.ones == 6 && s.flagsWanted > 0 ==> t.flagsWanted == s.flagsWanted - 1)
            && (Deaf(c, t) <==> Deaf(c, s) || (s.ones == 6 && CloseDeafens(c, s)))
  {
    if s.ones == 6 && s.inFrame {
      CloseLeaves(c, s);
    }
    hide Close, CloseDeafens;
  }

  lemma PushKeeps(c: Config, s: Rx, b: bool)
    requires Valid(c, s) && Consistent(s)
    ensures var t := Push(c, s, b);
            && Consistent(t) && t.out == s.out && t.flagsWanted == s.flagsWanted
            && t.bit == (if s.bit == 7 then 0 else s.bit + 1)
            && (Deaf(c, t) <==> Deaf(c, s))
            && (s.bit < 7 ==> SameFrame(s, t))
  {
  }

  lemma NextPlace(bit: nat, n: nat)
    requires bit < 8 && n > 0
    ensures ((if bit == 7 then 0 else bit + 1) + (n - 1)) % 8 == (bit + n) % 8
  {
    if bit == 7 {
      assert bit + n == (n - 1) + 8;
    }
  }

  lemma {:induction false} PushesKeep(c: Config, s: Rx, bits: Bits)
    requires Valid(c, s) && Consistent(s)
    ensures var t := PushAll(c, s, bits);
            && Consistent(t) && t.out == s.out && t.flagsWanted == s.flagsWanted
            && t.bit == (s.bit + |bits|) % 8
            && (Deaf(c, t) <==> Deaf(c, s))
            && (s.bit + |bits| < 8 ==> SameFrame(s, t))
    decreases |bits|
  {
    if bits != [] {
      hide Push, Deaf, Consistent;
      PushKeeps(c, s, bits[0]);
      PushesKeep(c, Push(c, s, bits[0]), bits[1..]);
      NextPlace(s.bit, |bits|);
    }
  }

  /** With room in the buffer and nothing hunted for, the first octet is kept. */
  lemma {:induction false} PushFills(c: Config, s: Rx, bits: Bits, start: nat)
    requires Valid(c, s) && s.flagsWanted == 0
    requires (s.inFrame && s.flen > start) || (s.flen == start < c.frameSize && s.bit + |bits| >= 8)
    ensures var t := PushAll(c, s, bits);
            t.inFrame && t.flen > start
    decreases |bits|
  {
    if bits != [] {
      PushFills(c, Push(c, s, bits[0]), bits[1..], start);
    }
  }

  // ----------------------------------------------------------------------------- flags

  /** Between frames, with nothing hunted for; octets may have been left in the buffer. */
  ghost predicate Settled(c: Config, s: Rx) {
    Valid(c, s) && s.flagsWanted == 0 && s.ones == 0 && s.bit == 0 && !s.inFrame
  }

  /** At the end of a frame of whole octets, before its closing flag. */
  ghost predicate Kept(c: Config, s: Rx) {
    Valid(c, s) && s.flagsWanted == 0 && 0 <= s.ones < 5 && s.bit == 0 && s.inFrame
  }

  /** A flag that ends what has been kept deafens: with six ones before it already at its
      first zero, otherwise at its last. */
  ghost predicate FlagDeafens(c: Config, s: Rx)
    requires Valid(c, s)
  {
    if s.ones == 6 then CloseDeafens(c, s) else CloseDeafens(c, Receive(c, s, [false] + Ones(6)))
  }

  /** The six ones of a flag. */
  lemma SixOnes(c: Config, s: Rx)
    requires Valid(c, s) && Consistent(s) && s.ones == 0
    ensures var t := Receive(c, s, Ones(6));
            && Consistent(t) && t.ones == 6 && t.out == s.out && t.flagsWanted == s.flagsWanted
            && (Deaf(c, t) <==> Deaf(c, s)) && (s.bit == 0 && !s.inFrame ==> !t.inFrame)
  {
    hide PushAll, Receive, Consistent;
    OnesArePushed(c, s, 6);
    PushesKeep(c, s, Ones(6));
    ConsistentOnes(PushAll(c, s, Ones(6)), 6);
  }

  lemma ConsistentOnes(s: Rx, ones: int)
    requires Consistent(s)
    ensures Consistent(s.(ones := ones))
  {
  }

  /** One flag, whatever was received before: it ends the frame in progress. */
  lemma FlagAnywhere(c: Config, s: Rx)
    requires Valid(c, s) && Consistent(s)
    ensures var t := Receive(c, s, FLAG);
            && Consistent(t) && t.ones == 0 && t.bit == 0 && !t.inFrame && s.out <= t.out
            && t.flagsWanted <= (if s.flagsWanted == 0 then 0 else s.flagsWanted - 1)
            && (Deaf(c, t) <==> Deaf(c, s) || FlagDeafens(c, s))
  {
    hide Bit, PushAll, Receive, Consistent, Deaf, CloseDeafens;
    var a := Bit(c, s, false);
    var b := Receive(c, a, Ones(6));
    ZeroBit(c, s);
    SixOnes(c, a);
    ZeroBit(c, b);
    FlagInParts(c, s);
    DeafNeverCloses(c, s);
    DeafNeverCloses(c, b);
  }

  /** Only a frame in progress can be closed. */
  lemma DeafNeverCloses(c: Config, s: Rx)
    requires Valid(c, s)
    ensures CloseDeafens(c, s) ==> s.inFrame
  {
  }

  lemma FlagInParts(c: Config, s: Rx)
    requires Valid(c, s)
    ensures Receive(c, s, [false] + Ones(6)) == Receive(c, Bit(c, s, false), Ones(6))
    ensures Receive(c, s, FLAG) == Bit(c, Receive(c, s, [false] + Ones(6)), false)
  {
    hide Bit, Receive;
    assert FLAG == ([false] + Ones(6)) + [false];
    ReceiveConcat(c, s, [false] + Ones(6), [false]);
    ReceiveConcat(c, s, [false], Ones(6));
    ReceiveOne(c, s, false);
    ReceiveOne(c, Receive(c, s, [false] + Ones(6)), false);
  }

  /** A flag between frames changes nothing but the count of opening flags. */
  lemma QuietFlag(c: Config, s: Rx)
    requires Valid(c, s) && Consistent(s) && s.ones == 0 && s.bit == 0 && !s.inFrame
    ensures var t := Receive(c, s, FLAG);
            && Consistent(t) && t.ones == 0 && t.bit == 0 && !t.inFrame
            && t.flen == s.flen && t.out == s.out
            && t.flagsWanted == if s.flagsWanted == 0 then 0 else s.flagsWanted - 1
  {
    hide Receive, Close, Push;
    var u := FlagPrefix(c, s);
    FlagInParts(c, s);
  }

  /** The three flags before a frame. */
  lemma FlagsSettle(c: Config, s: Rx)
    requires Valid(c, s) && Consistent(s)
    ensures var u := Receive(c, s, FLAG + (FLAG + FLAG));
            Settled(c, u) && s.out <= u.out && (Deaf(c, u) <==> Deaf(c, s) || FlagDeafens(c, s))
  {
    hide Receive, FlagDeafens;
    FlagAnywhere(c, s);
    var t := Receive(c, s, FLAG);
    QuietFlag(c, t);
    QuietFlag(c, Receive(c, t, FLAG));
    ReceiveConcat(c, s, FLAG, FLAG + FLAG);
    ReceiveConcat(c, t, FLAG, FLAG);
  }

  /** The stuffed octets of a frame, behind whatever was left in the buffer. */
  lemma OctetsKept(c: Config, s: Rx, octets: seq<nat>)
    requires Settled(c, s) && octets != []
    ensures var v := Receive(c, s, Stuff(FrameBits(octets), 0));
            v.out == s.out && if Deaf(c, s) then Deaf(c, v) else Kept(c, v) && v.flen > s.flen
  {
    hide Receive, PushAll, Stuff, HdlcLine.Run, FrameBits;
    var bits := FrameBits(octets);
    Destuffs(c, s, bits);
    PushesKeep(c, s, bits);
    if !Deaf(c, s) {
      PushFills(c, s, bits, s.flen);
    }
  }

  /** The closing flag: a frame too long to report is refused and stays, any other is handed
      on as repaired and the buffer is free. */
  lemma ClosingFlag(c: Config, s: Rx)
    requires Kept(c, s)
    ensures var t, r := Receive(c, s, FLAG), Repair(s.frame, s.flen);
            && Settled(c, t)
            && (r.len >= c.maxFrame ==> t.flen == r.len && t.out == s.out && t.overflow)
            && (r.len < c.maxFrame ==> t.flen == 0 && t.out == s.out + [r.frame[..r.len]] && t.overflow == s.overflow)
  {
    hide Receive, Push, Repair;
    var u := FlagPrefix(c, s);
    FlagInParts(c, s);
  }

  /** The state before a first frame's closing flag: deaf if the receiver was, or if the flags
      before the frame deafened it, and otherwise with its octets kept. */
  lemma FirstFrame(c: Config, s: Rx, octets: seq<nat>)
    requires Valid(c, s) && Consistent(s) && octets != []
    ensures var v := Receive(c, s, SegmentBits(Frame(octets)));
            s.out <= v.out && if Deaf(c, s) || FlagDeafens(c, s) then Deaf(c, v) else Kept(c, v)
  {
    hide Receive, Stuff, FrameBits, FlagDeafens, Consistent, Deaf, Kept;
    var d := Stuff(FrameBits(octets), 0);
    assert SegmentBits(Frame(octets)) == (FLAG + (FLAG + FLAG)) + d;
    ReceiveConcat(c, s, FLAG + (FLAG + FLAG), d);
    FlagsSettle(c, s);
    OctetsKept(c, Receive(c, s, FLAG + (FLAG + FLAG)), octets);
  }

  // ------------------------------------------------------------------ a line that follows

  /** A line and its last flag, past the first flag. */
  function After(line: seq<Segment>): Bits {
    if line == [] then []
    else
      var rest := LineBits(line[1..]) + FLAG;
      match line[0]
      case Idle => rest
      case Frame(octets) => FLAG + (FLAG + (Stuff(FrameBits(octets), 0) + rest))
  }

  lemma LineAfter(line: seq<Segment>)
    ensures LineBits(line) + FLAG == FLAG + After(line)
  {
    hide Stuff, FrameBits, LineBits;
    if line == [] {
      LineNone();
    } else {
      LineFirst(line);
      if line[0].Frame? {
        FlagsRegroup(FLAG, Stuff(FrameBits(line[0].octets), 0), LineBits(line[1..]) + FLAG);
      }
    }
  }

  lemma LineFirst(line: seq<Segment>)
    requires line != []
    ensures LineBits(line) + FLAG == SegmentBits(line[0]) + (LineBits(line[1..]) + FLAG)
  {
    hide LineBits, SegmentBits;
    assert line == [line[0]] + line[1..];
    LineBitsCons(line[0], line[1..]);
    Associate(SegmentBits(line[0]), LineBits(line[1..]), FLAG);
  }

  lemma FlagsRegroup(a: Bits, d: Bits, rest: Bits)
    ensures (a + (a + (a + d))) + rest == a + (a + (a + (d + rest)))
  {
    Associate(a, a + (a + d), rest);
    Associate(a, a + d, rest);
    Associate(a, d, rest);
  }

  lemma LineNone()
    ensures LineBits([]) + FLAG == FLAG + []
  {
  }

  /** From between frames over one idle flag to what follows it. */
  lemma AfterIdle(c: Config, s: Rx, line: seq<Segment>)
    requires Settled(c, s) && line != [] && line[0] == Idle
    ensures var t := Receive(c, s, FLAG);
            && Settled(c, t) && t.flen == s.flen && t.out == s.out
            && Receive(c, s, After(line)) == Receive(c, t, After(line[1..]))
  {
    hide Receive, LineBits;
    LineAfter(line[1..]);
    QuietFlag(c, s);
    ReceiveConcat(c, s, FLAG, After(line[1..]));
  }

  /** From between frames over one frame to the state before its closing flag. */
  lemma AfterFrame(c: Config, s: Rx, line: seq<Segment>) returns (v: Rx)
    requires Settled(c, s) && line != [] && line[0].Frame? && line[0].octets != []
    ensures v.out == s.out && if Deaf(c, s) then Deaf(c, v) else Kept(c, v) && v.flen > s.flen
    ensures Valid(c, v)
    ensures Receive(c, s, After(line)) == Receive(c, Receive(c, v, FLAG), After(line[1..]))
  {
    hide Receive, LineBits, Stuff, FrameBits;
    var rest := LineBits(line[1..]) + FLAG;
    var d := Stuff(FrameBits(line[0].octets), 0);
    QuietFlag(c, s);
    var t := Receive(c, s, FLAG);
    QuietFlag(c, t);
    var u := Receive(c, t, FLAG);
    OctetsKept(c, u, line[0].octets);
    v := Receive(c, u, d);
    assert After(line) == FLAG + (FLAG + (d + rest));
    ReceiveConcat(c, s, FLAG, FLAG + (d + rest));
    ReceiveConcat(c, t, FLAG, d + rest);
    ReceiveConcat(c, u, d, rest);
    LineAfter(line[1..]);
    ReceiveConcat(c, v, FLAG, After(line[1..]));
  }

  ghost predicate NoneEmpty(line: seq<Segment>) {
    forall i | 0 <= i < |line| :: line[i].Frame? ==> line[i].octets != []
  }

  lemma NoneEmptyRest(line: seq<Segment>)
    requires NoneEmpty(line) && line != []
    ensures NoneEmpty(line[1..]) && (line[0].Frame? ==> line[0].octets != [])
  {
    assert forall i | 0 <= i < |line[1..]| :: line[1..][i] == line[i + 1];
  }

  /** No more frames are handed on than the line carries. */
  lemma {:induction false} NoMoreThanSent(c: Config, s: Rx, line: seq<Segment>)
    requires Settled(c, s) && NoneEmpty(line)
    ensures |Receive(c, s, After(line)).out| <= |s.out| + |Frames(line)|
    decreases |line|
  {
    if line != [] {
      hide Receive, After, NoneEmpty, Settled, Kept, Deaf, Frames;
      NoneEmptyRest(line);
      FramesFirst(line);
      if line[0] == Idle {
        AfterIdle(c, s, line);
        NoMoreThanSent(c, Receive(c, s, FLAG), line[1..]);
      } else {
        var v := AfterFrame(c, s, line);
        if Deaf(c, s) {
          DeafForever(c, v, FLAG);
          DeafForever(c, Receive(c, v, FLAG), After(line[1..]));
        } else {
          KeptValid(c, v);
          ClosingFlag(c, v);
          NoMoreThanSent(c, Receive(c, v, FLAG), line[1..]);
        }
      }
    }
  }

  lemma KeptValid(c: Config, s: Rx)
    requires Kept(c, s)
    ensures Valid(c, s) && 1 <= s.flen < |s.frame|
  {
  }

  lemma FramesFirst(line: seq<Segment>)
    requires line != []
    ensures Frames(line) == if line[0].Frame? then [line[0].octets] + Frames(line[1..]) else Frames(line[1..])
  {
  }

  /** Octets that stayed because they were too many to report spoil the next frame: it is
      refused with them, or handed on as nothing. */
  lemma {:induction false} CloggedDiffers(c: Config, s: Rx, line: seq<Segment>)
    requires Settled(c, s) && 1 <= c.maxFrame <= s.flen && NoneEmpty(line) && Frames(line) != []
    ensures Receive(c, s, After(line)).out != s.out + HdlcLink.LowFrames(Frames(line))
    decreases |line|
  {
    hide Receive, After, NoneEmpty, Settled, Kept, Deaf, Frames, HdlcLink.LowFrames;
    SettledValid(c, s);
    SomeLine(line);
    NoneEmptyRest(line);
    FramesFirst(line);
    assert |s.out + HdlcLink.LowFrames(Frames(line))| == |s.out| + |Frames(line)|;
    if line[0] == Idle {
      AfterIdle(c, s, line);
      CloggedDiffers(c, Receive(c, s, FLAG), line[1..]);
    } else {
      var v := AfterFrame(c, s, line);
      if Deaf(c, s) {
        DeafForever(c, v, FLAG);
        DeafForever(c, Receive(c, v, FLAG), After(line[1..]));
      } else {
        KeptValid(c, v);
        ClosingFlag(c, v);
        var t := Receive(c, v, FLAG);
        SettledValid(c, t);
        if Repair(v.frame, v.flen).len < c.maxFrame {
          assert t.out == s.out + [[]];
          NothingTakenBack(c, t, After(line[1..]));
          FirstLow(line);
          OtherNext(s.out, HdlcLink.LowFrames(Frames(line)), Receive(c, t, After(line[1..])).out);
        } else {
          NoMoreThanSent(c, t, line[1..]);
        }
      }
    }
  }

  lemma OtherNext(out: seq<seq<nat>>, low: seq<seq<nat>>, all: seq<seq<nat>>)
    requires out + [[]] <= all && low != [] && low[0] != []
    ensures all != out + low
  {
    assert all[|out|] == [] && (out + low)[|out|] == low[0];
  }

  lemma SomeLine(line: seq<Segment>)
    requires Frames(line) != []
    ensures line != []
  {
  }

  lemma SettledValid(c: Config, s: Rx)
    requires Settled(c, s)
    ensures Valid(c, s)
  {
  }

  lemma FirstLow(line: seq<Segment>)
    requires line != [] && line[0].Frame? && line[0].octets != []
    ensures HdlcLink.LowFrames(Frames(line)) != [] && HdlcLink.LowFrames(Frames(line))[0] != []
  {
  }

  lemma {:induction false} NothingTakenBack(c: Config, s: Rx, bits: Bits)
    requires Valid(c, s)
    ensures s.out <= Receive(c, s, bits).out
    decreases |bits|
  {
    if bits != [] {
      var t := Bit(c, s, bits[0]);
      assert s.out <= t.out by {
        hide Repair;
      }
      hide Bit;
      NothingTakenBack(c, t, bits[1..]);
    }
  }

  // --------------------------------------------------------------------------- recovery

  /** A frame, its closing flag, and then a line. */
  function Noisy(octets: seq<nat>, line: seq<Segment>): Bits {
    SegmentBits(Frame(octets)) + (FLAG + (LineBits(line) + FLAG))
  }

  /** Past the first closing flag exactly the line's frames are handed on. */
  ghost predicate Recovered(c: Config, s: Rx, octets: seq<nat>, line: seq<Segment>)
    requires Valid(c, s)
  {
    Receive(c, s, Noisy(octets, line)).out
    == Receive(c, s, SegmentBits(Frame(octets)) + FLAG).out + HdlcLink.LowFrames(Frames(line))
  }

  /** The state before a first frame's closing flag, and after it. */
  lemma NoisyParts(c: Config, s: Rx, octets: seq<nat>, line: seq<Segment>)
    requires Valid(c, s)
    ensures var v := Receive(c, s, SegmentBits(Frame(octets)));
            var w := Receive(c, v, FLAG);
            && Receive(c, s, SegmentBits(Frame(octets)) + FLAG) == w
            && Receive(c, s, Noisy(octets, line)) == Receive(c, w, LineBits(line) + FLAG)
  {
    hide Receive, SegmentBits, LineBits;
    ReceiveConcat(c, s, SegmentBits(Frame(octets)), FLAG);
    ReceiveConcat(c, s, SegmentBits(Frame(octets)), FLAG + (LineBits(line) + FLAG));
    ReceiveConcat(c, Receive(c, s, SegmentBits(Frame(octets))), FLAG, LineBits(line) + FLAG);
  }

  lemma DeliverableNotEmpty(c: Config, line: seq<Segment>)
    requires HdlcLink.AllDeliverable(c, Frames(line))
    ensures NoneEmpty(line) && (Frames(line) != [] ==> c.maxFrame >= 2)
    decreases |line|
  {
    if line != [] {
      var f, g := Frames(line), Frames(line[1..]);
      if line[0].Frame? {
        HdlcLink.FirstFrame(c, line);
      } else {
        HdlcLink.FirstIdle(line);
      }
      DeliverableNotEmpty(c, line[1..]);
      hide Deliverable;
      assert line == [line[0]] + line[1..];
    }
  }

  lemma LowFramesNotEmpty(line: seq<Segment>)
    requires Frames(line) != []
    ensures HdlcLink.LowFrames(Frames(line)) != []
  {
  }

  lemma Free(c: Config, s: Rx)
    requires Settled(c, s) && s.flen == 0
    ensures Awaiting(c, s, [])
  {
  }

  /** The closing flag of the first frame finds octets and does not refuse them. */
  ghost predicate Released(c: Config, s: Rx)
    requires Valid(c, s)
  {
    s.inFrame && Repair(s.frame, s.flen).len < c.maxFrame
  }

  /** For every frame size and report limit, from any state: all that follows the first frame's
      closing flag is handed on exactly when that flag releases the buffer. */
  lemma RecoversExactly(c: Config, s: Rx, octets: seq<nat>, line: seq<Segment>)
    requires Valid(c, s) && Consistent(s) && octets != []
    requires Frames(line) != [] && HdlcLink.AllDeliverable(c, Frames(line))
    ensures Recovered(c, s, octets, line) <==> Released(c, Receive(c, s, SegmentBits(Frame(octets))))
  {
    hide Receive, Deaf, Kept, Settled, LineBits, SegmentBits, Frames, Noisy, Repair;
    hide HdlcLink.AllDeliverable, HdlcLink.LowFrames, NoneEmpty, FlagDeafens, Consistent;
    var v := Receive(c, s, SegmentBits(Frame(octets)));
    var w := Receive(c, v, FLAG);
    NoisyParts(c, s, octets, line);
    FirstFrame(c, s, octets);
    LowFramesNotEmpty(line);
    DeliverableNotEmpty(c, line);
    if Deaf(c, v) {
      NotInFrame(c, v);
      DeafForever(c, v, FLAG);
      DeafForever(c, w, LineBits(line) + FLAG);
    } else {
      KeptInFrame(c, v);
      ClosingFlag(c, v);
      if Released(c, v) {
        Free(c, w);
        HdlcLink.LineDecodes(c, w, [], line);
        assert w.out + [] == w.out;
      } else {
        LineAfter(line);
        AfterFlag(c, w, line);
        CloggedDiffers(c, Receive(c, w, FLAG), line);
      }
    }
  }

  lemma NotInFrame(c: Config, s: Rx)
    requires Deaf(c, s)
    ensures !s.inFrame
  {
  }

  lemma KeptInFrame(c: Config, s: Rx)
    requires Kept(c, s)
    ensures s.inFrame
  {
  }

  lemma AfterFlag(c: Config, s: Rx, line: seq<Segment>)
    requires Settled(c, s)
    ensures var t := Receive(c, s, FLAG);
            && Settled(c, t) && t.flen == s.flen && t.out == s.out
            && Receive(c, s, LineBits(line) + FLAG) == Receive(c, t, After(line))
  {
    hide Receive, LineBits, After;
    LineAfter(line);
    QuietFlag(c, s);
    ReceiveConcat(c, s, FLAG, After(line));
  }

  /** Where the receiver may report as much as it can hold, said of the state and of the two
      flags around the first frame: it was not deaf, and neither flag deafens it. */
  lemma RecoversUnlessDeafened(c: Config, s: Rx, octets: seq<nat>, line: seq<Segment>)
    requires Valid(c, s) && Consistent(s) && octets != [] && c.frameSize <= c.maxFrame
    requires Frames(line) != [] && HdlcLink.AllDeliverable(c, Frames(line))
    ensures Recovered(c, s, octets, line)
       <==> !Deaf(c, s) && !FlagDeafens(c, s) && !CloseDeafens(c, Receive(c, s, SegmentBits(Frame(octets))))
  {
    hide Recovered, Receive, Frames, HdlcLink.AllDeliverable, FlagDeafens, SegmentBits, Consistent, Attempt, Realign;
    RecoversExactly(c, s, octets, line);
    FirstFrame(c, s, octets);
  }

  /** With room to report more than it can hold, only deafness stands in the way. */
  lemma RecoversWithRoom(c: Config, s: Rx, octets: seq<nat>, line: seq<Segment>)
    requires Valid(c, s) && Consistent(s) && octets != [] && c.frameSize < c.maxFrame
    requires Frames(line) != [] && HdlcLink.AllDeliverable(c, Frames(line))
    ensures Recovered(c, s, octets, line) <==> !Deaf(c, s)
  {
    hide Recovered, Receive, Frames, HdlcLink.AllDeliverable, SegmentBits, Consistent, Attempt;
    RecoversUnlessDeafened(c, s, octets, line);
  }

  // ------------------------------------------------------------- the full good frame

  /** One good frame that fills the buffer, where that is the report limit or more: received
      without any error, it is refused and the receiver is deaf. */
  lemma FullFrameDeafens(c: Config, s: Rx, octets: seq<nat>)
    requires Awaiting(c, s, []) && |octets| == c.frameSize >= c.maxFrame && Fcs16(octets) == GOOD
    ensures var t := Receive(c, s, SegmentBits(Frame(octets)) + FLAG); Deaf(c, t) && t.out == s.out
  {
    hide Receive, Stuff, FrameBits, PushAll, HdlcLine.Run, Realign;
    var f, d := FLAG + (FLAG + FLAG), Stuff(FrameBits(octets), 0);
    assert SegmentBits(Frame(octets)) + FLAG == f + (d + FLAG);
    ReceiveConcat(c, s, f, d + FLAG);
    var u := ThreeFlags(c, s, []);
    ReceiveConcat(c, u, d, FLAG);
    Destuffs(c, u, FrameBits(octets));
    PushFrame(c, u, octets);
    var v := Receive(c, u, d);
    LowOctetBits(octets);
    assert v.frame[..v.flen] == LowOctets(octets);
    assert u.out == s.out + [] == s.out;
    ClosingFlag(c, v);
  }

  /** The receiver that the fax class builds holds 0x60 elements and reports fewer than 0x60:
      its first frame of 0x5E octets and their check sequence deafens it for good. */
  lemma ClassReceiverDeafens(payload: seq<nat>, bits: Bits)
    requires |payload| == 0x5E
    ensures var c := Config(0x60, 0x60);
            Valid(c, Created(c))
            && Receive(c, Created(c), (SegmentBits(Frame(Closed(payload))) + FLAG) + bits).out == []
  {
    hide Receive, SegmentBits;
    var c := Config(0x60, 0x60);
    var s := Created(c);
    assert Awaiting(c, s, []);
    ClosedIsGood(payload);
    FullFrameDeafens(c, s, Closed(payload));
    ReceiveConcat(c, s, SegmentBits(Frame(Closed(payload))) + FLAG, bits);
    DeafForever(c, Receive(c, s, SegmentBits(Frame(Closed(payload))) + FLAG), bits);
  }
}
