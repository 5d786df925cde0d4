/** The log reader that pairs each rate decision of a call with the measurements of its
    own handshake. */
module SnrBlocks {
  import opened Wrappers

  /** A recognised log line.  `db` is the ratio of a power line in decibels. */
  datatype Event =
    | GainSetup(gain: int)
    | PhaseThreeEnd
    | Power(sig: int, err: int, db: real)
    | Threshold(rate: int, level: int)
    | Ladder(ladderRate: int, ethresh: int, time: Option<real>)
    | Decide(equerr: int, preerr: int)
    | Choice(choice: int)
    | Final(tx: int, rx: int)

  const SATURATED: int := 32767
  const SETTLED: int := 163820

  /** A power line worth keeping: defined, not saturated, and on the settled constellation. */
  predicate Clean(e: Event) {
    && e.Power? && e.sig > 0 && 0 < e.err < SATURATED
    && 995 * SETTLED <= 1000 * e.sig <= 1005 * SETTLED
  }

  datatype Sample = Sample(err: int, db: real)

  /** What is known of the handshake in progress. */
  datatype Track = Track(
    gain3: Option<int>, gain4: Option<int>, inPhase4: bool,
    run3: seq<real>, run4: seq<Sample>, level3: Option<real>, count3: nat)

  function Start(): Track {
    Track(None, None, false, [], [], None, 0)
  }

  function Sum(s: seq<real>): real {
    if s == [] then 0.0 else Sum(s[..|s| - 1]) + s[|s| - 1]
  }

  function Tail(s: seq<real>): seq<real> {
    if |s| > 3 then s[|s| - 3..] else s
  }

  /** The mean of the last three, or of as many as there are. */
  function MeanOfTail(s: seq<real>): Option<real> {
    if s == [] then None else Some(Sum(Tail(s)) / |Tail(s)| as real)
  }

  /** The level of phase 3, in the values themselves: nothing without any, and otherwise the
      mean of the last three, or of the one or two there are. */
  lemma TailMeans(s: seq<real>)
    ensures MeanOfTail(s).Some? <==> s != []
    ensures |s| == 1 ==> MeanOfTail(s).value == s[0]
    ensures |s| == 2 ==> MeanOfTail(s).value * 2.0 == s[0] + s[1]
    ensures var n := |s|; n >= 3 ==> MeanOfTail(s).value * 3.0 == s[n - 3] + s[n - 2] + s[n - 1]
  {
    var t := Tail(s);
    if |s| == 1 {
      SumOne(t);
    } else if |s| == 2 {
      SumTwo(t);
    } else if |s| >= 3 {
      SumThree(t);
    }
    hide Sum, MeanOfTail;
    MeanTimes(s);
  }

  lemma MeanTimes(s: seq<real>)
    ensures MeanOfTail(s).Some? <==> s != []
    ensures |Tail(s)| == 1 ==> MeanOfTail(s).value == Sum(Tail(s))
    ensures |Tail(s)| == 2 ==> MeanOfTail(s).value * 2.0 == Sum(Tail(s))
    ensures |Tail(s)| == 3 ==> MeanOfTail(s).value * 3.0 == Sum(Tail(s))
  {
    hide Sum;
    if s != [] {
      var total, count := Sum(Tail(s)), |Tail(s)| as real;
      Unmeaned(total, count);
      assert MeanOfTail(s).value * count == total;
    }
  }

  lemma Unmeaned(total: real, count: real)
    requires count > 0.0
    ensures total / count * count == total
  {
  }

  lemma SumThree(t: seq<real>)
    requires |t| == 3
    ensures Sum(t) == t[0] + t[1] + t[2]
  {
    SumTwo(t[..2]);
    assert Sum(t) == Sum(t[..2]) + t[2];
  }

  lemma SumOne(t: seq<real>)
    requires |t| == 1
    ensures Sum(t) == t[0]
  {
    assert Sum(t) == Sum(t[..0]) + t[0] && Sum(t[..0]) == 0.0;
  }

  lemma SumTwo(t: seq<real>)
    requires |t| == 2
    ensures Sum(t) == t[0] + t[1]
  {
    SumOne(t[..1]);
    assert Sum(t) == Sum(t[..1]) + t[1];
  }

  /** Clean: a ratio that is defined, an error below saturation, and a signal within half a
      percent of the settled constellation's. */
  lemma CleanMeans(e: Event)
    requires e.Power?
    ensures Clean(e) <==> e.sig > 0 && e.err > 0 && e.err != 32767 && e.err < 32767
                          && 163820.0 * (1.0 - 0.005) <= e.sig as real <= 163820.0 * (1.0 + 0.005)
  {
  }

  function TrackStep(t: Track, e: Event): Track {
    match e
    case GainSetup(g) =>
      if t.inPhase4 then t.(gain4 := Some(g), run4 := [], inPhase4 := false)
      else Track(Some(g), None, false, [], [], None, 0)
    case PhaseThreeEnd =>
      t.(level3 := MeanOfTail(t.run3), count3 := |t.run3|, inPhase4 := true)
    case Power(_, _, _) =>
      if !Clean(e) then t
      else if t.gain4.None? && !t.inPhase4 then t.(run3 := t.run3 + [e.db])
      else if t.gain4.Some? then t.(run4 := t.run4 + [Sample(e.err, e.db)])
      else t
    case _ => t
  }

  function Tracked(es: seq<Event>): Track {
    if es == [] then Start() else TrackStep(Tracked(es[..|es| - 1]), es[|es| - 1])
  }

  // ------------------------------------------------------------------------- decisions

  /** The figures taken at a decision's ladder line, all at once. */
  datatype Figures = Figures(
    rate: int, ethresh: int, time: Option<real>,
    gain3: Option<int>, gain4: Option<int>, level3: Option<real>, count3: nat, run4: seq<Sample>)

  datatype Verdict = Verdict(equerr: int, preerr: int, sigpow: Option<int>, assumed: bool)

  datatype Reading = Reading(sig: int, err: int)

  datatype Decision = Decision(
    thresh: map<int, int>, after: Option<Reading>, figures: Option<Figures>,
    verdict: Option<Verdict>, choice: Option<int>, rates: Option<(int, int)>)

  datatype Machine = Machine(track: Track, last: Option<Reading>, cur: Option<Decision>, out: seq<Decision>)

  function Snapshot(e: Event, t: Track): Figures
    requires e.Ladder?
  {
    Figures(e.ladderRate, e.ethresh, e.time, t.gain3, t.gain4, t.level3, t.count3, t.run4)
  }

  /** The signal power goes with a decision only if the last error read is the decision's. */
  function Judge(e: Event, last: Option<Reading>, assumed: bool): Verdict
    requires e.Decide?
  {
    var sigpow := if last.Some? && last.value.err == e.equerr then Some(last.value.sig) else None;
    Verdict(e.equerr, e.preerr, sigpow, assumed)
  }

  function Blank(): Decision {
    Decision(map[], None, None, None, None, None)
  }

  /** What a line does to the decision being put together; `None` when there is none. */
  function CurStep(cur: Option<Decision>, e: Event, t: Track, last: Option<Reading>, assumed: bool): Option<Decision> {
    match e
    case Power(s, x, _) =>
      if cur.Some? && cur.value.after.None? then Some(cur.value.(after := Some(Reading(s, x)))) else cur
    case Threshold(r, v) =>
      var d := if cur.Some? then cur.value else Blank();
      Some(d.(thresh := d.thresh[r := v]))
    case Ladder(_, _, _) =>
      if cur.Some? then Some(cur.value.(figures := Some(Snapshot(e, t)))) else cur
    case Decide(_, _) =>
      if cur.Some? then Some(cur.value.(verdict := Some(Judge(e, last, assumed)))) else cur
    case Choice(c) =>
      if cur.Some? then Some(cur.value.(choice := Some(c))) else cur
    case Final(tx, rx) =>
      if cur.Some? then Some(cur.value.(rates := Some((tx, rx)))) else cur
    case _ => cur
  }

  function Step(m: Machine, e: Event, assumed: bool): Machine {
    var cur := CurStep(m.cur, e, m.track, m.last, assumed);
    var last := if e.Power? then Some(Reading(e.sig, e.err)) else m.last;
    var closes := e.Final? && cur.Some?;
    Machine(TrackStep(m.track, e), last, if closes then None else cur, if closes then m.out + [cur.value] else m.out)
  }

  function Run(es: seq<Event>, assumed: bool): Machine {
    if es == [] then Machine(Start(), None, None, []) else Step(Run(es[..|es| - 1], assumed), es[|es| - 1], assumed)
  }

  /** All decisions: those closed, and one left open if it has its figures. */
  function Decisions(es: seq<Event>, assumed: bool): seq<Decision> {
    var m := Run(es, assumed);
    if m.cur.Some? && m.cur.value.figures.Some? then m.out + [m.cur.value] else m.out
  }

  /** The reader, one line at a time over its own variables. */
  method Blocks(es: seq<Event>, assumed: bool) returns (out: seq<Decision>)
    ensures out == Decisions(es, assumed)
  {
    out := [];
    var last: Option<Reading> := None;
    var cur: Option<Decision> := None;
    var gain3, gain4, inPhase4 := None, None, false;
    var run3, run4 := [], [];
    var level3 := None;
    var count3: nat := 0;
    for n := 0 to |es|
      invariant Machine(Track(gain3, gain4, inPhase4, run3, run4, level3, count3), last, cur, out)
             == Run(es[..n], assumed)
    {
      hide MeanOfTail, Clean, Run, CurStep;
      var e := es[n];
      RunNext(es, n, Run(es[..n], assumed), assumed);
      match e
      case GainSetup(g) =>
        LineIgnored(cur, e, Run(es[..n], assumed).track, last, assumed);
        if inPhase4 {
          gain4, run4 := Some(g), [];
          inPhase4 := false;
        } else {
          gain3, run3, gain4, level3 := Some(g), [], None, None;
          count3 := 0;
          run4 := [];
        }
      case PhaseThreeEnd =>
        LineIgnored(cur, e, Run(es[..n], assumed).track, last, assumed);
        level3 := MeanOfTail(run3);
        count3 := |run3|;
        inPhase4 := true;
      case Power(s, x, d) =>
        cur := TakeReading(cur, e, Run(es[..n], assumed).track, last, assumed);
        last := Some(Reading(s, x));
        run3, run4 := Collect(e, gain4.Some?, inPhase4, run3, run4);
      case _ =>
        var t := Track(gain3, gain4, inPhase4, run3, run4, level3, count3);
        cur := TakeLine(cur, e, t, last, assumed);
        if e.Final? && cur.Some? {
          out := out + [cur.value];
          cur := None;
        }
    }
    assert es[..|es|] == es;
    if cur.Some? && cur.value.figures.Some? {
      out := out + [cur.value];
    }
  }

  /** The lines of a decision: each adds its part to the one in progress, if there is one. */
  method TakeLine(cur: Option<Decision>, e: Event, t: Track, last: Option<Reading>, assumed: bool)
    returns (next: Option<Decision>)
    requires !e.GainSetup? && !e.PhaseThreeEnd? && !e.Power?
    ensures next == CurStep(cur, e, t, last, assumed)
  {
    next := cur;
    if e.Threshold? {
      if next.None? {
        next := Some(Blank());
      }
      next := Some(next.value.(thresh := next.value.thresh[e.rate := e.level]));
    } else if next.Some? {
      match e
      case Ladder(r, x, ts) =>
        var figures := Figures(r, x, ts, t.gain3, t.gain4, t.level3, t.count3, t.run4);
        next := Some(next.value.(figures := Some(figures)));
      case Decide(q, p) =>
        var sigpow := if last.Some? && last.value.err == q then Some(last.value.sig) else None;
        next := Some(next.value.(verdict := Some(Verdict(q, p, sigpow, assumed))));
      case Choice(c) =>
        next := Some(next.value.(choice := Some(c)));
      case Final(tx, rx) =>
        next := Some(next.value.(rates := Some((tx, rx))));
      case _ =>
    }
  }

  lemma LineIgnored(cur: Option<Decision>, e: Event, t: Track, last: Option<Reading>, assumed: bool)
    requires e.GainSetup? || e.PhaseThreeEnd?
    ensures CurStep(cur, e, t, last, assumed) == cur
  {
  }

  /** The first reading after a decision was begun stays with it. */
  method TakeReading(cur: Option<Decision>, e: Event, ghost t: Track, ghost last: Option<Reading>, ghost assumed: bool)
    returns (next: Option<Decision>)
    requires e.Power?
    ensures next == CurStep(cur, e, t, last, assumed)
  {
    next := cur;
    if cur.Some? && cur.value.after.None? {
      next := Some(cur.value.(after := Some(Reading(e.sig, e.err))));
    }
  }

  /** The power line's samples: phase 3 before its end, phase 4 once its gain is set. */
  method Collect(e: Event, phase4: bool, inPhase4: bool, run3: seq<real>, run4: seq<Sample>)
    returns (more3: seq<real>, more4: seq<Sample>)
    requires e.Power?
    ensures more3 == if Clean(e) && !phase4 && !inPhase4 then run3 + [e.db] else run3
    ensures more4 == if Clean(e) && phase4 then run4 + [Sample(e.err, e.db)] else run4
  {
    more3, more4 := run3, run4;
    if Clean(e) {
      if !phase4 && !inPhase4 {
        more3 := run3 + [e.db];
      } else if phase4 {
        more4 := run4 + [Sample(e.err, e.db)];
      }
    }
  }

  // ------------------------------------------------------------------------ handshakes

  lemma {:induction false} RunTracks(es: seq<Event>, assumed: bool)
    ensures Run(es, assumed).track == Tracked(es)
  {
    if es != [] {
      RunTracks(es[..|es| - 1], assumed);
    }
  }

  /** Phase 3 has ended since the receiver gain was last set up. */
  ghost predicate EndedSinceGain(es: seq<Event>) {
    exists k | 0 <= k < |es| :: es[k].PhaseThreeEnd? && forall j | k < j < |es| :: !es[j].GainSetup?
  }

  lemma EndedSnoc(es: seq<Event>, e: Event)
    ensures EndedSinceGain(es + [e]) == (e.PhaseThreeEnd? || (!e.GainSetup? && EndedSinceGain(es)))
  {
    var es', n := es + [e], |es|;
    assert es'[n] == e;
    if e.PhaseThreeEnd? {
      assert es'[n].PhaseThreeEnd?;
    } else if EndedSinceGain(es') {
      var k :| 0 <= k < |es'| && es'[k].PhaseThreeEnd? && forall j | k < j < |es'| :: !es'[j].GainSetup?;
      assert es[k].PhaseThreeEnd? && forall j | k < j < n :: es[j] == es'[j];
    } else if EndedSinceGain(es) {
      var k :| 0 <= k < n && es[k].PhaseThreeEnd? && forall j | k < j < n :: !es[j].GainSetup?;
      assert es'[k].PhaseThreeEnd? && forall j | k < j < n :: es[j] == es'[j];
    }
  }

  /** The phase flag, said of the lines. */
  lemma {:induction false} PhaseExactly(es: seq<Event>)
    ensures Tracked(es).inPhase4 <==> EndedSinceGain(es)
  {
    if es != [] {
      var n := |es| - 1;
      PhaseExactly(es[..n]);
      EndedSnoc(es[..n], es[n]);
      assert es[..n] + [es[n]] == es;
      hide EndedSinceGain;
    }
  }

  /** A gain set up at line `h` without a phase 3 end since the last one: a new handshake. */
  ghost predicate StartsAt(es: seq<Event>, h: nat) {
    h < |es| && es[h].GainSetup? && !EndedSinceGain(es[..h])
  }

  /** Nothing before a handshake's first line has any part in what is known of it. */
  lemma {:induction false} HandshakeLocal(es: seq<Event>, h: nat)
    requires StartsAt(es, h)
    ensures Tracked(es) == Tracked(es[h..])
  {
    var n := |es| - 1;
    if h == n {
      PhaseExactly(es[..h]);
      assert es[h..] == [es[h]];
      assert [es[h]][..0] == [];
      assert Tracked([]) == Start();
    } else {
      assert es[..n][..h] == es[..h];
      HandshakeLocal(es[..n], h);
      assert es[..n][h..] == es[h..][..n - h];
      assert es[h..][n - h] == es[n];
    }
  }

  /** One handshake and no more: the first line starts it and no later line starts another. */
  ghost predicate OneHandshake(es: seq<Event>) {
    StartsAt(es, 0) && forall h | 0 < h < |es| :: !StartsAt(es, h)
  }

  /** The index of the last gain set-up. */
  function LastGain(es: seq<Event>): (k: nat)
    requires es != [] && es[0].GainSetup?
    ensures k < |es| && es[k].GainSetup? && forall j | k < j < |es| :: !es[j].GainSetup?
  {
    var n := |es| - 1;
    if es[n].GainSetup? then n else LastGain(es[..n])
  }

  /** The clean power lines, in order. */
  function CleanIn(es: seq<Event>): seq<Sample> {
    if es == [] then []
    else
      var e := es[|es| - 1];
      CleanIn(es[..|es| - 1]) + if Clean(e) then [Sample(e.err, e.db)] else []
  }

  function Levels(s: seq<Sample>): seq<real> {
    seq(|s|, i requires 0 <= i < |s| => s[i].db)
  }

  /** The lines before the first end of phase 3. */
  function BeforeEnd(es: seq<Event>): (r: seq<Event>)
    ensures r <= es
    ensures forall i | 0 <= i < |r| :: !r[i].PhaseThreeEnd?
    ensures |r| < |es| ==> es[|r|].PhaseThreeEnd?
  {
    if es == [] then []
    else
      var n := |es| - 1;
      var r := BeforeEnd(es[..n]);
      if |r| < n || es[n].PhaseThreeEnd? then r else es
  }

  /** What is known after one handshake, said of its lines. */
  ghost predicate Explains(t: Track, es: seq<Event>)
    requires es != [] && es[0].GainSetup?
  {
    var k := LastGain(es);
    var first := BeforeEnd(es);
    && t.gain3 == Some(es[0].gain)
    && t.gain4 == (if k == 0 then None else Some(es[k].gain))
    && t.run4 == (if k == 0 then [] else CleanIn(es[k..]))
    && t.run3 == Levels(CleanIn(first))
    && t.level3 == (if first == es then None else MeanOfTail(t.run3))
    && t.count3 == (if first == es then 0 else |t.run3|)
    && (first == es ==> k == 0 && !t.inPhase4)
    && (first != es && k == 0 ==> t.inPhase4)
  }

  lemma OneHandshakePrefix(es: seq<Event>)
    requires OneHandshake(es) && |es| > 1
    ensures OneHandshake(es[..|es| - 1])
  {
    var n := |es| - 1;
    forall h | 0 <= h < n
      ensures StartsAt(es[..n], h) == StartsAt(es, h)
    {
      assert es[..n][..h] == es[..h];
    }
  }

  lemma CleanSnoc(es: seq<Event>, e: Event)
    ensures CleanIn(es + [e]) == CleanIn(es) + if Clean(e) then [Sample(e.err, e.db)] else []
  {
    assert (es + [e])[..|es|] == es;
  }

  lemma LevelsSnoc(s: seq<Sample>, x: Sample)
    ensures Levels(s + [x]) == Levels(s) + [x.db] && Levels(s + []) == Levels(s)
  {
    assert s + [] == s;
  }

  lemma BeforeEndSnoc(es: seq<Event>, e: Event)
    ensures BeforeEnd(es + [e]) == if BeforeEnd(es) == es && !e.PhaseThreeEnd? then es + [e] else BeforeEnd(es)
    ensures BeforeEnd(es) == es || BeforeEnd(es) != es + [e]
  {
    assert (es + [e])[..|es|] == es;
  }

  lemma LastGainSnoc(es: seq<Event>, e: Event)
    requires es != [] && es[0].GainSetup?
    ensures (es + [e])[0].GainSetup? && LastGain(es + [e]) == if e.GainSetup? then |es| else LastGain(es)
  {
    assert (es + [e])[..|es|] == es;
  }

  /** The samples since line `k`, one line later. */
  lemma SinceSnoc(es: seq<Event>, k: nat, e: Event)
    requires k <= |es|
    ensures CleanIn((es + [e])[k..]) == CleanIn(es[k..]) + if Clean(e) then [Sample(e.err, e.db)] else []
  {
    assert (es + [e])[k..] == es[k..] + [e];
    CleanSnoc(es[k..], e);
  }

  /** The levels of all lines so far, one line later. */
  lemma LevelsLater(es: seq<Event>, e: Event)
    ensures Levels(CleanIn(es + [e])) == Levels(CleanIn(es)) + if Clean(e) then [e.db] else []
  {
    CleanSnoc(es, e);
    LevelsSnoc(CleanIn(es), Sample(0, 0.0));
    if Clean(e) {
      LevelsSnoc(CleanIn(es), Sample(e.err, e.db));
    }
  }

  /** One line more of the same handshake. */
  lemma ExplainStep(t: Track, es: seq<Event>, e: Event)
    requires es != [] && es[0].GainSetup? && Explains(t, es) && (e.GainSetup? ==> t.inPhase4)
    ensures (es + [e])[0].GainSetup? && Explains(TrackStep(t, e), es + [e])
  {
    hide MeanOfTail, Levels, CleanIn, BeforeEnd, LastGain;
    BeforeEndSnoc(es, e);
    LastGainSnoc(es, e);
    SinceSnoc(es, LastGain(es), e);
    LevelsLater(es, e);
    if e.GainSetup? {
      assert (es + [e])[|es|..] == [e];
      NoPower(e);
    }
  }

  lemma NoPower(e: Event)
    requires !e.Power?
    ensures CleanIn([e]) == []
  {
    assert [e][..0] == [];
    assert CleanIn([]) == [];
  }

  /** Every figure of a handshake is what its own lines say: the two gains, the phase 3 level
      over the clean lines before the first end of phase 3, and the clean lines since the
      phase 4 gain. */
  lemma {:induction false} HandshakeExplained(es: seq<Event>)
    requires OneHandshake(es)
    ensures Explains(Tracked(es), es)
  {
    var n := |es| - 1;
    assert es[..n] + [es[n]] == es;
    if n == 0 {
      assert es == [es[0]];
      assert Tracked([]) == Start();
      NoPower(es[0]);
      assert [es[0]][..0] == [];
      assert BeforeEnd(es) == es;
    } else {
      OneHandshakePrefix(es);
      HandshakeExplained(es[..n]);
      PhaseExactly(es[..n]);
      assert !StartsAt(es, n);
      ExplainStep(Tracked(es[..n]), es[..n], es[n]);
    }
  }

  // ------------------------------------------------------------------- what is emitted

  /** The last power line. */
  function LastReading(es: seq<Event>): Option<Reading> {
    if es == [] then None
    else
      var e := es[|es| - 1];
      if e.Power? then Some(Reading(e.sig, e.err)) else LastReading(es[..|es| - 1])
  }

  lemma {:induction false} RunReads(es: seq<Event>, assumed: bool)
    ensures Run(es, assumed).last == LastReading(es)
  {
    if es != [] {
      RunReads(es[..|es| - 1], assumed);
    }
  }

  /** The figures were all taken at line `n`. */
  ghost predicate TakenAt(f: Figures, es: seq<Event>, n: nat) {
    n < |es| && es[n].Ladder? && f == Snapshot(es[n], Tracked(es[..n]))
  }

  ghost predicate JudgedAt(v: Verdict, es: seq<Event>, n: nat, assumed: bool) {
    n < |es| && es[n].Decide? && v == Judge(es[n], LastReading(es[..n]), assumed)
  }

  /** A decision's figures come from one line and its verdict from one line. */
  ghost predicate Sourced(d: Decision, es: seq<Event>, assumed: bool) {
    && (d.figures.Some? ==> exists n: nat :: TakenAt(d.figures.value, es, n))
    && (d.verdict.Some? ==> exists n: nat :: JudgedAt(d.verdict.value, es, n, assumed))
  }

  lemma SourcedLater(d: Decision, es: seq<Event>, e: Event, assumed: bool)
    requires Sourced(d, es, assumed)
    ensures Sourced(d, es + [e], assumed)
  {
    var es' := es + [e];
    if d.figures.Some? {
      var n: nat :| TakenAt(d.figures.value, es, n);
      assert es'[..n] == es[..n];
      assert TakenAt(d.figures.value, es', n);
    }
    if d.verdict.Some? {
      var n: nat :| JudgedAt(d.verdict.value, es, n, assumed);
      assert es'[..n] == es[..n];
      assert JudgedAt(d.verdict.value, es', n, assumed);
    }
  }

  lemma CurSourced(cur: Option<Decision>, es: seq<Event>, e: Event, assumed: bool)
    requires cur.Some? ==> Sourced(cur.value, es, assumed)
    ensures var next := CurStep(cur, e, Tracked(es), LastReading(es), assumed);
            next.Some? ==> Sourced(next.value, es + [e], assumed)
  {
    hide Tracked, LastReading;
    var es' := es + [e];
    assert es'[..|es|] == es;
    if cur.Some? {
      SourcedLater(cur.value, es, e, assumed);
    }
    if e.Ladder? {
      assert TakenAt(Snapshot(e, Tracked(es)), es', |es|);
    }
    if e.Decide? {
      assert JudgedAt(Judge(e, LastReading(es), assumed), es', |es|, assumed);
    }
  }

  lemma {:induction false} RunSourced(es: seq<Event>, assumed: bool)
    ensures var m := Run(es, assumed);
            && (m.cur.Some? ==> Sourced(m.cur.value, es, assumed))
            && forall d | d in m.out :: Sourced(d, es, assumed)
  {
    if es != [] {
      var n := |es| - 1;
      var init, e := es[..n], es[n];
      RunSourced(init, assumed);
      RunTracks(init, assumed);
      RunReads(init, assumed);
      assert init + [e] == es;
      var m := Run(init, assumed);
      hide Run, Sourced, Tracked, LastReading, CurStep;
      CurSourced(m.cur, init, e, assumed);
      forall d | d in m.out
        ensures Sourced(d, es, assumed)
      {
        SourcedLater(d, init, e, assumed);
      }
      RunStep(es, assumed);
    }
  }

  lemma RunStep(es: seq<Event>, assumed: bool)
    requires es != []
    ensures Run(es, assumed) == Step(Run(es[..|es| - 1], assumed), es[|es| - 1], assumed)
  {
  }

  /** Each decision's figures were taken together at one line, and its verdict at one line,
      with a signal power exactly when the last power line's error is the decision's. */
  lemma DecisionsSourced(es: seq<Event>, assumed: bool, d: Decision)
    requires d in Decisions(es, assumed)
    ensures Sourced(d, es, assumed)
  {
    RunSourced(es, assumed);
  }

  /** What is known after `past` is explained by one handshake's lines, from its start at
      line `h` on. */
  ghost predicate FromHandshake(past: seq<Event>, h: nat) {
    StartsAt(past, h) && OneHandshake(past[h..]) && Explains(Tracked(past), past[h..])
  }

  /** No handshake starts in the log before these lines. */
  ghost predicate NoStart(past: seq<Event>) {
    forall h | 0 <= h < |past| :: !StartsAt(past, h)
  }

  lemma NoStartPrefix(past: seq<Event>, n: nat)
    requires n <= |past| && NoStart(past)
    ensures NoStart(past[..n])
  {
    forall h | 0 <= h < n
      ensures !StartsAt(past[..n], h)
    {
      assert past[..n][..h] == past[..h];
      assert !StartsAt(past, h);
    }
  }

  /** The index of the last gain set-up, or -1. */
  function LastGainAt(es: seq<Event>): (k: int)
    ensures -1 <= k < |es| && (k >= 0 ==> es[k].GainSetup?)
  {
    if es == [] then -1
    else if es[|es| - 1].GainSetup? then |es| - 1
    else LastGainAt(es[..|es| - 1])
  }

  /** What is known where the log begins inside a handshake: no phase 3 gain, and for the rest
      what the lines say, clean lines only. */
  ghost predicate ExplainsOpen(t: Track, es: seq<Event>) {
    var k := LastGainAt(es);
    var first := BeforeEnd(es);
    && t.gain3.None?
    && t.gain4 == (if k < 0 then None else Some(es[k].gain))
    && t.run4 == (if k < 0 then [] else CleanIn(es[k..]))
    && t.run3 == Levels(CleanIn(first))
    && t.level3 == (if first == es then None else MeanOfTail(t.run3))
    && t.count3 == (if first == es then 0 else |t.run3|)
    && (first == es ==> k < 0 && !t.inPhase4)
    && (first != es && k < 0 ==> t.inPhase4)
  }

  lemma OpenStep(t: Track, es: seq<Event>, e: Event)
    requires ExplainsOpen(t, es) && (e.GainSetup? ==> t.inPhase4)
    ensures ExplainsOpen(TrackStep(t, e), es + [e])
  {
    hide MeanOfTail, Levels, CleanIn, BeforeEnd, LastGainAt;
    BeforeEndSnoc(es, e);
    LastGainAtSnoc(es, e);
    if LastGainAt(es) >= 0 {
      SinceSnoc(es, LastGainAt(es), e);
    }
    LevelsLater(es, e);
    if e.GainSetup? {
      assert (es + [e])[|es|..] == [e];
      NoPower(e);
    }
  }

  lemma LastGainAtSnoc(es: seq<Event>, e: Event)
    ensures LastGainAt(es + [e]) == if e.GainSetup? then |es| else LastGainAt(es)
  {
    assert (es + [e])[..|es|] == es;
  }

  lemma OpenStart()
    ensures ExplainsOpen(Tracked([]), [])
  {
    assert Levels(CleanIn([])) == [];
  }

  lemma TrackedNext(es: seq<Event>)
    requires es != []
    ensures Tracked(es) == TrackStep(Tracked(es[..|es| - 1]), es[|es| - 1])
  {
  }

  lemma NoStartHere(past: seq<Event>, n: nat)
    requires NoStart(past) && n < |past|
    ensures past[n].GainSetup? ==> EndedSinceGain(past[..n])
  {
    assert !StartsAt(past, n);
  }

  lemma OpenNext(past: seq<Event>, init: seq<Event>, e: Event)
    requires past == init + [e] && NoStart(past) && ExplainsOpen(Tracked(init), init)
    ensures ExplainsOpen(Tracked(past), past)
  {
    hide ExplainsOpen, EndedSinceGain, NoStart, TrackStep, Tracked, StartsAt;
    assert past[..|init|] == init && past[|init|] == e;
    TrackedNext(past);
    PhaseExactly(init);
    NoStartHere(past, |init|);
    OpenStep(Tracked(init), init, e);
  }

  lemma {:induction false} OpenExplained(past: seq<Event>)
    requires NoStart(past)
    ensures ExplainsOpen(Tracked(past), past)
  {
    hide ExplainsOpen, NoStart, Tracked;
    if past == [] {
      OpenStart();
    } else {
      var n := |past| - 1;
      NoStartPrefix(past, n);
      OpenExplained(past[..n]);
      OpenNext(past, past[..n], past[n]);
    }
  }

  /** A sample that a clean line gave. */
  ghost predicate FromClean(x: Sample, es: seq<Event>) {
    exists k | 0 <= k < |es| :: Clean(es[k]) && x == Sample(es[k].err, es[k].db)
  }

  /** Every sample collected came from a line that passed the filter. */
  lemma {:induction false} CollectedAreClean(es: seq<Event>)
    ensures forall x | x in CleanIn(es) :: FromClean(x, es)
  {
    if es != [] {
      var n := |es| - 1;
      CollectedAreClean(es[..n]);
      forall x | x in CleanIn(es)
        ensures FromClean(x, es)
      {
        if x in CleanIn(es[..n]) {
          var k :| 0 <= k < n && Clean(es[..n][k]) && x == Sample(es[..n][k].err, es[..n][k].db);
          assert es[k] == es[..n][k];
        } else {
          assert Clean(es[n]) && x == Sample(es[n].err, es[n].db);
        }
      }
    }
  }

  /** The latest start, if there is one. */
  lemma {:induction false} LatestStart(past: seq<Event>, n: nat) returns (h: nat)
    requires n <= |past| && exists j | 0 <= j < n :: StartsAt(past, j)
    ensures h < n && StartsAt(past, h) && forall j | h < j < n :: !StartsAt(past, j)
  {
    if StartsAt(past, n - 1) {
      h := n - 1;
    } else {
      h := LatestStart(past, n - 1);
    }
  }

  lemma KnownFromOneHandshake(past: seq<Event>)
    ensures (NoStart(past) && ExplainsOpen(Tracked(past), past)) || exists h: nat :: FromHandshake(past, h)
  {
    if NoStart(past) {
      OpenExplained(past);
    } else {
      var h := LatestStart(past, |past|);
      HandshakeLocal(past, h);
      var seg := past[h..];
      forall j | 0 <= j < |seg|
        ensures StartsAt(seg, j) == (j == 0 || StartsAt(past, h + j))
      {
        StartsInside(past, h, j);
      }
      HandshakeExplained(seg);
      assert FromHandshake(past, h);
    }
  }

  /** In every log, a decision's two gains, phase 3 level and phase 4 run are those of one
      and the same handshake, said of its lines, whether or not the log shows its start. */
  lemma DecisionOfOneHandshake(es: seq<Event>, assumed: bool, d: Decision) returns (n: nat)
    requires d in Decisions(es, assumed) && d.figures.Some?
    ensures TakenAt(d.figures.value, es, n)
    ensures (NoStart(es[..n]) && ExplainsOpen(Tracked(es[..n]), es[..n])) || exists h: nat :: FromHandshake(es[..n], h)
  {
    DecisionsSourced(es, assumed, d);
    n :| TakenAt(d.figures.value, es, n);
    KnownFromOneHandshake(es[..n]);
  }

  /** A line starts a handshake in the whole log exactly when it does in its handshake. */
  lemma StartsInside(past: seq<Event>, h: nat, j: nat)
    requires StartsAt(past, h) && h + j < |past|
    ensures StartsAt(past[h..], j) == (j == 0 || StartsAt(past, h + j))
  {
    var seg := past[h..];
    if j == 0 {
      assert seg[..0] == [];
    } else {
      assert past[..h + j][..h] == past[..h];
      assert past[..h + j][h..] == seg[..j];
      HandshakeLocal(past[..h + j], h);
      PhaseExactly(past[..h + j]);
      PhaseExactly(seg[..j]);
      hide EndedSinceGain, Tracked;
    }
  }

  // --------------------------------------------------------- what may be of another one

  /** Two handshakes; the second one's ladder line closes what the first one opened. */
  const MIXED: seq<Event> :=
    [GainSetup(1), Threshold(5, 9), Power(163820, 100, 32.0), GainSetup(2), Ladder(3, 4, None), Decide(100, 7)]

  lemma MixedStarts()
    ensures StartsAt(MIXED, 0) && StartsAt(MIXED, 3)
  {
    assert forall k | 0 <= k < 3 :: !MIXED[..3][k].PhaseThreeEnd?;
  }

  lemma MixedRun(d: Decision)
    requires d == Decision(map[5 := 9], Some(Reading(163820, 100)), None, None, None, None)
    ensures Run(MIXED[..4], false)
         == Machine(Track(Some(2), None, false, [], [], None, 0), Some(Reading(163820, 100)), Some(d), [])
  {
    hide MeanOfTail, Clean;
    assert MIXED[..0] == [];
    var m1 := Machine(Track(Some(1), None, false, [], [], None, 0), None, None, []);
    RunNext(MIXED, 0, Machine(Start(), None, None, []), false);
    assert Run(MIXED[..1], false) == m1;
    var m2 := m1.(cur := Some(Blank().(thresh := map[5 := 9])));
    RunNext(MIXED, 1, m1, false);
    assert Run(MIXED[..2], false) == m2;
    RunNext(MIXED, 2, m2, false);
    RunNext(MIXED, 3, Step(m2, MIXED[2], false), false);
  }

  /** Figures, and beside them thresholds, a reading and a signal power of the handshake
      before: the decision in progress is not dropped at a gain set-up. */
  lemma MixedHandshakes()
    ensures |Decisions(MIXED, false)| == 1
    ensures var d := Decisions(MIXED, false)[0];
            && d.figures.Some? && d.figures.value.gain3 == Some(2)
            && d.thresh == map[5 := 9] && d.after == Some(Reading(163820, 100))
            && d.verdict.Some? && d.verdict.value.sigpow == Some(163820)
  {
    hide Run, MeanOfTail;
    var d := Decision(map[5 := 9], Some(Reading(163820, 100)), None, None, None, None);
    MixedRun(d);
    var m := Run(MIXED[..4], false);
    RunNext(MIXED, 4, m, false);
    RunNext(MIXED, 5, Step(m, MIXED[4], false), false);
    assert MIXED[..6] == MIXED;
  }

  lemma RunNext(es: seq<Event>, k: nat, m: Machine, assumed: bool)
    requires k < |es| && Run(es[..k], assumed) == m
    ensures Run(es[..k + 1], assumed) == Step(m, es[k], assumed)
  {
    assert es[..k + 1][..k] == es[..k];
  }
}
