/** The log cut into decisions: where each begins and ends, and which of the lines in
    between gives each of its parts. */
module SnrSpans {
  import opened Wrappers
  import opened SnrBlocks
  import SnrParts

  // -------------------------------------------------------------------- lines of a kind

  datatype Kind = AnyPower | AnyThreshold | AnyLadder | AnyDecide | AnyChoice | AnyFinal

  predicate Is(e: Event, k: Kind) {
    match k
    case AnyPower => e.Power?
    case AnyThreshold => e.Threshold?
    case AnyLadder => e.Ladder?
    case AnyDecide => e.Decide?
    case AnyChoice => e.Choice?
    case AnyFinal => e.Final?
  }

  ghost predicate NoneOf(es: seq<Event>, a: nat, b: nat, k: Kind) {
    forall j | a <= j < b && j < |es| :: !Is(es[j], k)
  }

  /** The last line of a kind past line `o`, or -1. */
  function Last(es: seq<Event>, o: nat, k: Kind): (i: int)
    ensures -1 <= i < |es| && (i >= 0 ==> o < i && Is(es[i], k))
    ensures forall j | o < j < |es| && i < j :: !Is(es[j], k)
  {
    if |es| <= o + 1 then -1
    else if Is(es[|es| - 1], k) then |es| - 1
    else Last(es[..|es| - 1], o, k)
  }

  /** The first power line past line `o`, or -1. */
  function FirstPower(es: seq<Event>, o: nat): (i: int)
    ensures -1 <= i < |es| && (i >= 0 ==> o < i && es[i].Power?)
    ensures forall j | o < j < |es| && (i < 0 || j < i) :: !es[j].Power?
  {
    if |es| <= o + 1 then -1
    else
      var i := FirstPower(es[..|es| - 1], o);
      if i >= 0 then i else if es[|es| - 1].Power? then |es| - 1 else -1
  }

  /** The last threshold line for a rate from line `o` on, or -1. */
  function LastThreshold(es: seq<Event>, o: nat, rate: int): (i: int)
    ensures -1 <= i < |es| && (i >= 0 ==> o <= i && es[i].Threshold? && es[i].rate == rate)
    ensures forall j | o <= j < |es| && i < j && es[j].Threshold? :: es[j].rate != rate
  {
    if |es| <= o then -1
    else
      var e := es[|es| - 1];
      if e.Threshold? && e.rate == rate then |es| - 1 else LastThreshold(es[..|es| - 1], o, rate)
  }

  // ------------------------------------------------------------------ parts of a decision

  /** For each rate the level its last threshold line gives. */
  ghost predicate ThreshFrom(es: seq<Event>, o: nat, thresh: map<int, int>) {
    && (forall r :: r in thresh <==> LastThreshold(es, o, r) >= 0)
    && forall r | r in thresh :: thresh[r] == es[LastThreshold(es, o, r)].level
  }

  /** The reading of the first power line. */
  ghost predicate AfterFrom(es: seq<Event>, o: nat, after: Option<Reading>) {
    var i := FirstPower(es, o);
    after == if i < 0 then None else Some(Reading(es[i].sig, es[i].err))
  }

  /** A ladder line's rate, level and time, with what was known of the handshake there. */
  ghost function FiguresAt(es: seq<Event>, i: nat): Figures
    requires i < |es| && es[i].Ladder?
  {
    var t := Tracked(es[..i]);
    Figures(es[i].ladderRate, es[i].ethresh, es[i].time, t.gain3, t.gain4, t.level3, t.count3, t.run4)
  }

  /** The figures of the last ladder line. */
  ghost predicate FiguresFrom(es: seq<Event>, o: nat, figures: Option<Figures>) {
    var i := Last(es, o, AnyLadder);
    figures == if i < 0 then None else Some(FiguresAt(es, i))
  }

  /** The signal power a decision line goes with: that of the last power line before it, in the
      whole log, if the errors are equal. */
  ghost function PowerFor(es: seq<Event>, i: nat): Option<int>
    requires i < |es| && es[i].Decide?
  {
    var p := SnrParts.LastPower(es[..i]);
    if p >= 0 && es[p].err == es[i].equerr then Some(es[p].sig) else None
  }

  /** The last decide line's errors, and the signal power that goes with them. */
  ghost predicate VerdictFrom(es: seq<Event>, o: nat, verdict: Option<Verdict>, assumed: bool) {
    var i := Last(es, o, AnyDecide);
    verdict == if i < 0 then None else Some(Verdict(es[i].equerr, es[i].preerr, PowerFor(es, i), assumed))
  }

  ghost predicate ChoiceFrom(es: seq<Event>, o: nat, choice: Option<int>) {
    var i := Last(es, o, AnyChoice);
    choice == if i < 0 then None else Some(es[i].choice)
  }

  ghost predicate RatesFrom(es: seq<Event>, o: nat, rates: Option<(int, int)>) {
    var i := Last(es, o, AnyFinal);
    rates == if i < 0 then None else Some((es[i].tx, es[i].rx))
  }

  /** A decision begun at line `o`, in all its parts, once the lines `es` are read. */
  ghost predicate Made(es: seq<Event>, o: nat, d: Decision, assumed: bool) {
    && o < |es| && es[o].Threshold?
    && ThreshFrom(es, o, d.thresh) && AfterFrom(es, o, d.after) && FiguresFrom(es, o, d.figures)
    && VerdictFrom(es, o, d.verdict, assumed) && ChoiceFrom(es, o, d.choice) && RatesFrom(es, o, d.rates)
  }

  // ------------------------------------------------------------------------ one more line

  lemma LastNext(es: seq<Event>, e: Event, o: nat, k: Kind)
    requires o < |es|
    ensures Last(es + [e], o, k) == if Is(e, k) then |es| else Last(es, o, k)
  {
    assert (es + [e])[..|es|] == es;
  }

  lemma ThreshNext(es: seq<Event>, e: Event, o: nat, thresh: map<int, int>)
    requires o < |es| && ThreshFrom(es, o, thresh)
    ensures ThreshFrom(es + [e], o, if e.Threshold? then thresh[e.rate := e.level] else thresh)
  {
    assert (es + [e])[..|es|] == es;
    var next := if e.Threshold? then thresh[e.rate := e.level] else thresh;
    forall r
      ensures LastThreshold(es + [e], o, r)
           == if e.Threshold? && e.rate == r then |es| else LastThreshold(es, o, r)
    {
    }
    hide LastThreshold;
  }

  lemma AfterNext(es: seq<Event>, e: Event, o: nat, after: Option<Reading>)
    requires o < |es| && AfterFrom(es, o, after)
    ensures AfterFrom(es + [e], o, if e.Power? && after.None? then Some(Reading(e.sig, e.err)) else after)
  {
    assert (es + [e])[..|es|] == es;
  }

  lemma FiguresNext(es: seq<Event>, e: Event, o: nat, figures: Option<Figures>)
    requires o < |es| && FiguresFrom(es, o, figures)
    ensures FiguresFrom(es + [e], o, if e.Ladder? then Some(Snapshot(e, Tracked(es))) else figures)
  {
    hide Last, FiguresAt, Snapshot;
    LastNext(es, e, o, AnyLadder);
    SnapshotIs(es, e);
    var i := Last(es, o, AnyLadder);
    if i >= 0 {
      FiguresSame(es, e, i);
    }
  }

  lemma SnapshotIs(es: seq<Event>, e: Event)
    ensures (es + [e])[|es|] == e
    ensures e.Ladder? ==> Snapshot(e, Tracked(es)) == FiguresAt(es + [e], |es|)
  {
    assert (es + [e])[..|es|] == es;
    hide Tracked;
  }

  lemma FiguresSame(es: seq<Event>, e: Event, i: nat)
    requires i < |es| && es[i].Ladder?
    ensures (es + [e])[i] == es[i] && FiguresAt(es + [e], i) == FiguresAt(es, i)
  {
    assert (es + [e])[..i] == es[..i];
    hide Tracked;
  }

  lemma VerdictNext(es: seq<Event>, e: Event, o: nat, verdict: Option<Verdict>, assumed: bool)
    requires o < |es| && VerdictFrom(es, o, verdict, assumed)
    ensures VerdictFrom(es + [e], o, if e.Decide? then Some(Judge(e, LastReading(es), assumed)) else verdict, assumed)
  {
    hide Last, PowerFor, Judge, LastReading;
    LastNext(es, e, o, AnyDecide);
    JudgeIs(es, e, assumed);
    var i := Last(es, o, AnyDecide);
    if i >= 0 {
      PowerSame(es, e, i);
    }
  }

  lemma JudgeIs(es: seq<Event>, e: Event, assumed: bool)
    ensures (es + [e])[|es|] == e
    ensures e.Decide? ==> Judge(e, LastReading(es), assumed)
                          == Verdict(e.equerr, e.preerr, PowerFor(es + [e], |es|), assumed)
  {
    assert (es + [e])[..|es|] == es;
    hide LastReading, SnrParts.LastPower;
    if e.Decide? {
      SnrParts.LastPowerReads(es);
      var p := SnrParts.LastPower(es);
      assert p >= 0 ==> (es + [e])[p] == es[p];
    }
  }

  lemma PowerSame(es: seq<Event>, e: Event, i: nat)
    requires i < |es| && es[i].Decide?
    ensures (es + [e])[i] == es[i] && PowerFor(es + [e], i) == PowerFor(es, i)
  {
    assert (es + [e])[..i] == es[..i];
    hide SnrParts.LastPower;
    var p := SnrParts.LastPower(es[..i]);
    assert p >= 0 ==> (es + [e])[p] == es[p];
  }

  lemma ChoiceNext(es: seq<Event>, e: Event, o: nat, choice: Option<int>)
    requires o < |es| && ChoiceFrom(es, o, choice)
    ensures ChoiceFrom(es + [e], o, if e.Choice? then Some(e.choice) else choice)
  {
    LastNext(es, e, o, AnyChoice);
    hide Last;
  }

  lemma RatesNext(es: seq<Event>, e: Event, o: nat, rates: Option<(int, int)>)
    requires o < |es| && RatesFrom(es, o, rates)
    ensures RatesFrom(es + [e], o, if e.Final? then Some((e.tx, e.rx)) else rates)
  {
    LastNext(es, e, o, AnyFinal);
    hide Last;
  }

  /** One line further the decision in progress has its parts from one line more. */
  lemma MadeNext(es: seq<Event>, e: Event, o: nat, d: Decision, assumed: bool)
    requires Made(es, o, d, assumed)
    ensures var next := CurStep(Some(d), e, Tracked(es), LastReading(es), assumed);
            next.Some? && Made(es + [e], o, next.value, assumed)
  {
    hide ThreshFrom, AfterFrom, FiguresFrom, VerdictFrom, ChoiceFrom, RatesFrom, Tracked, LastReading, Snapshot, Judge;
    assert (es + [e])[o] == es[o];
    ThreshNext(es, e, o, d.thresh);
    AfterNext(es, e, o, d.after);
    FiguresNext(es, e, o, d.figures);
    VerdictNext(es, e, o, d.verdict, assumed);
    ChoiceNext(es, e, o, d.choice);
    RatesNext(es, e, o, d.rates);
  }

  /** A threshold line begins one. */
  lemma MadeFirst(es: seq<Event>, e: Event, assumed: bool)
    requires e.Threshold?
    ensures Made(es + [e], |es|, Blank().(thresh := map[e.rate := e.level]), assumed)
  {
    var more, thresh := es + [e], map[e.rate := e.level];
    assert more[|es|] == e && more[..|es|] == es;
    forall r
      ensures LastThreshold(more, |es|, r) == if e.rate == r then |es| else -1
    {
      assert LastThreshold(es, |es|, r) == -1;
    }
  }

  // ----------------------------------------------------------------------------- the cuts

  /** Where the search for the next decision begins: past the last one that is over. */
  function EndOf(ends: seq<nat>, i: nat): nat
    requires i <= |ends|
  {
    if i == 0 then 0 else ends[i - 1]
  }

  /** A decision: from the first threshold line past `from` to the first final line after it. */
  ghost predicate Span(es: seq<Event>, from: nat, start: nat, end: nat) {
    && from <= start && start + 1 < end <= |es|
    && es[start].Threshold? && NoneOf(es, from, start, AnyThreshold)
    && es[end - 1].Final? && NoneOf(es, start + 1, end - 1, AnyFinal)
  }

  /** The whole log: one span after another, and perhaps a decision begun and not over. */
  ghost predicate Cut(es: seq<Event>, starts: seq<nat>, ends: seq<nat>, open: Option<nat>) {
    && |starts| == |ends|
    && (forall i | 0 <= i < |starts| :: Span(es, EndOf(ends, i), starts[i], ends[i]))
    && (match open
        case None => NoneOf(es, EndOf(ends, |ends|), |es|, AnyThreshold)
        case Some(o) =>
          && EndOf(ends, |ends|) <= o < |es| && es[o].Threshold?
          && NoneOf(es, EndOf(ends, |ends|), o, AnyThreshold) && NoneOf(es, o + 1, |es|, AnyFinal))
  }

  /** Decision `i` is made of the lines of span `i`. */
  ghost predicate MadeOfSpans(es: seq<Event>, starts: seq<nat>, ends: seq<nat>, out: seq<Decision>, assumed: bool) {
    && |starts| == |ends| == |out|
    && forall i | 0 <= i < |out| :: ends[i] <= |es| && Made(es[..ends[i]], starts[i], out[i], assumed)
  }

  lemma NoneNext(es: seq<Event>, e: Event, a: nat, b: nat, k: Kind)
    requires NoneOf(es, a, b, k)
    ensures b <= |es| || !Is(e, k) ==> NoneOf(es + [e], a, b, k)
    ensures b == |es| && !Is(e, k) ==> NoneOf(es + [e], a, b + 1, k)
  {
    assert forall j | 0 <= j < |es| :: (es + [e])[j] == es[j];
  }

  lemma SpansNext(es: seq<Event>, e: Event, starts: seq<nat>, ends: seq<nat>)
    requires |starts| == |ends| && forall i | 0 <= i < |starts| :: Span(es, EndOf(ends, i), starts[i], ends[i])
    ensures forall i | 0 <= i < |starts| :: Span(es + [e], EndOf(ends, i), starts[i], ends[i])
  {
    forall i | 0 <= i < |starts|
      ensures Span(es + [e], EndOf(ends, i), starts[i], ends[i])
    {
      assert Span(es, EndOf(ends, i), starts[i], ends[i]);
      NoneNext(es, e, EndOf(ends, i), starts[i], AnyThreshold);
      NoneNext(es, e, starts[i] + 1, ends[i] - 1, AnyFinal);
    }
  }

  lemma MadeLater(es: seq<Event>, e: Event, starts: seq<nat>, ends: seq<nat>, out: seq<Decision>, assumed: bool)
    requires MadeOfSpans(es, starts, ends, out, assumed)
    ensures MadeOfSpans(es + [e], starts, ends, out, assumed)
  {
    hide Made;
    forall i | 0 <= i < |out|
      ensures ends[i] <= |es + [e]| && Made((es + [e])[..ends[i]], starts[i], out[i], assumed)
    {
      assert Made(es[..ends[i]], starts[i], out[i], assumed);
      assert (es + [e])[..ends[i]] == es[..ends[i]];
    }
  }

  /** A line that neither begins nor ends a decision. */
  lemma CutOn(es: seq<Event>, e: Event, starts: seq<nat>, ends: seq<nat>, open: Option<nat>)
    requires Cut(es, starts, ends, open) && if open.None? then !e.Threshold? else !e.Final?
    ensures Cut(es + [e], starts, ends, open)
  {
    SpansNext(es, e, starts, ends);
    var from := EndOf(ends, |ends|);
    if open.None? {
      NoneNext(es, e, from, |es|, AnyThreshold);
    } else {
      assert (es + [e])[open.value] == es[open.value];
      NoneNext(es, e, from, open.value, AnyThreshold);
      NoneNext(es, e, open.value + 1, |es|, AnyFinal);
    }
    hide Span, NoneOf, EndOf;
  }

  lemma CutBegins(es: seq<Event>, e: Event, starts: seq<nat>, ends: seq<nat>)
    requires Cut(es, starts, ends, None) && e.Threshold?
    ensures Cut(es + [e], starts, ends, Some(|es|))
  {
    SpansNext(es, e, starts, ends);
    NoneNext(es, e, EndOf(ends, |ends|), |es|, AnyThreshold);
    assert (es + [e])[|es|] == e;
    EndInside(es, starts, ends);
    assert NoneOf(es + [e], |es| + 1, |es + [e]|, AnyFinal);
    hide Span, NoneOf, EndOf;
  }

  lemma EndInside(es: seq<Event>, starts: seq<nat>, ends: seq<nat>)
    requires |starts| == |ends| && forall i | 0 <= i < |starts| :: Span(es, EndOf(ends, i), starts[i], ends[i])
    ensures EndOf(ends, |ends|) <= |es|
  {
    if ends != [] {
      assert Span(es, EndOf(ends, |ends| - 1), starts[|ends| - 1], ends[|ends| - 1]);
    }
  }

  lemma CutEnds(es: seq<Event>, e: Event, starts: seq<nat>, ends: seq<nat>, o: nat)
    requires Cut(es, starts, ends, Some(o)) && e.Final?
    ensures Cut(es + [e], starts + [o], ends + [|es| + 1], None)
  {
    hide Span, NoneOf, EndOf;
    SpansNext(es, e, starts, ends);
    NewSpan(es, e, EndOf(ends, |ends|), o);
    SpansMore(es + [e], starts, ends, o, |es| + 1);
    NothingLeft(es + [e], |es| + 1);
  }

  lemma NewSpan(es: seq<Event>, e: Event, from: nat, o: nat)
    requires from <= o < |es| && es[o].Threshold? && NoneOf(es, from, o, AnyThreshold)
    requires NoneOf(es, o + 1, |es|, AnyFinal) && e.Final?
    ensures Span(es + [e], from, o, |es| + 1)
  {
    NoneNext(es, e, from, o, AnyThreshold);
    NoneNext(es, e, o + 1, |es|, AnyFinal);
    hide NoneOf;
    assert (es + [e])[o] == es[o] && (es + [e])[|es|] == e;
  }

  lemma NothingLeft(es: seq<Event>, n: nat)
    requires n >= |es|
    ensures NoneOf(es, n, |es|, AnyThreshold)
  {
  }

  lemma SpansMore(es: seq<Event>, starts: seq<nat>, ends: seq<nat>, o: nat, end: nat)
    requires |starts| == |ends| && forall i | 0 <= i < |starts| :: Span(es, EndOf(ends, i), starts[i], ends[i])
    requires Span(es, EndOf(ends, |ends|), o, end)
    ensures EndOf(ends + [end], |ends| + 1) == end
    ensures forall i | 0 <= i < |starts| + 1 ::
              Span(es, EndOf(ends + [end], i), (starts + [o])[i], (ends + [end])[i])
  {
    hide Span;
    forall i | 0 <= i < |starts| + 1
      ensures Span(es, EndOf(ends + [end], i), (starts + [o])[i], (ends + [end])[i])
    {
      assert EndOf(ends + [end], i) == EndOf(ends, i);
    }
  }

  /** The log read so far, cut up, with a decision for every span and the one in progress. */
  lemma {:induction false} RunIsCut(es: seq<Event>, assumed: bool)
    returns (starts: seq<nat>, ends: seq<nat>, open: Option<nat>)
    ensures Cut(es, starts, ends, open) && MadeOfSpans(es, starts, ends, Run(es, assumed).out, assumed)
    ensures Run(es, assumed).cur.Some? <==> open.Some?
    ensures open.Some? ==> Made(es, open.value, Run(es, assumed).cur.value, assumed)
  {
    hide Run, Made, Cut, MadeOfSpans, Tracked, LastReading, TrackStep, CurStep, Step;
    if es == [] {
      starts, ends, open := [], [], None;
      CutNothing(assumed);
    } else {
      var init, e := es[..|es| - 1], es[|es| - 1];
      starts, ends, open := RunIsCut(init, assumed);
      RunTracks(init, assumed);
      RunReads(init, assumed);
      RunStep(es, assumed);
      assert init + [e] == es;
      starts, ends, open := CutStep(init, e, starts, ends, open, Run(init, assumed), assumed);
    }
  }

  lemma CutNothing(assumed: bool)
    ensures Cut([], [], [], None) && MadeOfSpans([], [], [], Run([], assumed).out, assumed)
    ensures Run([], assumed).cur.None?
  {
  }

  lemma CutStep(
      es: seq<Event>, e: Event, starts: seq<nat>, ends: seq<nat>, open: Option<nat>, m: Machine, assumed: bool)
    returns (starts': seq<nat>, ends': seq<nat>, open': Option<nat>)
    requires Cut(es, starts, ends, open) && MadeOfSpans(es, starts, ends, m.out, assumed)
    requires m.cur.Some? <==> open.Some?
    requires open.Some? ==> Made(es, open.value, m.cur.value, assumed)
    requires m.track == Tracked(es) && m.last == LastReading(es)
    ensures var n := Step(m, e, assumed);
            && Cut(es + [e], starts', ends', open') && MadeOfSpans(es + [e], starts', ends', n.out, assumed)
            && (n.cur.Some? <==> open'.Some?)
            && (open'.Some? ==> Made(es + [e], open'.value, n.cur.value, assumed))
  {
    hide Made, Cut, MadeOfSpans, Tracked, LastReading, TrackStep;
    MadeLater(es, e, starts, ends, m.out, assumed);
    starts', ends', open' := starts, ends, open;
    if open.Some? {
      MadeNext(es, e, open.value, m.cur.value, assumed);
      hide CurStep;
      if e.Final? {
        var d := CurStep(m.cur, e, m.track, m.last, assumed).value;
        CutEnds(es, e, starts, ends, open.value);
        SpanAdded(es + [e], starts, ends, m.out, open.value, d, assumed);
        starts', ends', open' := starts + [open.value], ends + [|es| + 1], None;
      } else {
        CutOn(es, e, starts, ends, open);
      }
    } else if e.Threshold? {
      CutBegins(es, e, starts, ends);
      MadeFirst(es, e, assumed);
      open' := Some(|es|);
    } else {
      CutOn(es, e, starts, ends, None);
    }
  }

  lemma SpanAdded(
      es: seq<Event>, starts: seq<nat>, ends: seq<nat>, out: seq<Decision>, o: nat, d: Decision, assumed: bool)
    requires MadeOfSpans(es, starts, ends, out, assumed) && Made(es, o, d, assumed)
    ensures MadeOfSpans(es, starts + [o], ends + [|es|], out + [d], assumed)
  {
    hide Made;
    assert es[..|es|] == es;
  }

  /** Every log, cut: the decisions are those of its spans, in order, and of the last one begun
      if it has a ladder line and is not over. */
  lemma DecisionsAreCut(es: seq<Event>, assumed: bool)
    returns (starts: seq<nat>, ends: seq<nat>, open: Option<nat>)
    ensures Cut(es, starts, ends, open)
    ensures var out := Decisions(es, assumed);
            if open.Some? && Last(es, open.value, AnyLadder) >= 0
            then |out| == |starts| + 1 && MadeOfSpans(es, starts, ends, out[..|starts|], assumed)
                 && Made(es, open.value, out[|starts|], assumed)
            else MadeOfSpans(es, starts, ends, out, assumed)
  {
    starts, ends, open := RunIsCut(es, assumed);
    var m := Run(es, assumed);
    if open.Some? {
      assert m.cur.value.figures.Some? <==> Last(es, open.value, AnyLadder) >= 0;
    }
    hide Made, Cut, Run;
    if m.cur.Some? {
      assert (m.out + [m.cur.value])[..|m.out|] == m.out;
    }
  }
}
