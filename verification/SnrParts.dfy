/** Which lines a decision of the log reader is put together from, and exactly when they are
    all of the handshake its figures are of. */
module SnrParts {
  import opened Wrappers
  import opened SnrBlocks

  /** The lines of a decision: its thresholds, the reading after it was begun, its figures and
      its verdict; `end` is past the last line that could add to it. */
  datatype Lines = Lines(
    thresholds: seq<nat>, after: Option<nat>, figures: Option<nat>, verdict: Option<nat>, end: nat)

  ghost predicate AreThresholds(es: seq<Event>, lines: seq<nat>) {
    && lines != []
    && (forall i | 0 <= i < |lines| :: lines[i] < |es| && es[lines[i]].Threshold?)
    && forall i, j | 0 <= i < j < |lines| :: lines[i] < lines[j]
  }

  /** The thresholds that lines give, later ones over earlier ones. */
  function Thresholds(es: seq<Event>, lines: seq<nat>): map<int, int>
    requires forall i | 0 <= i < |lines| :: lines[i] < |es| && es[lines[i]].Threshold?
  {
    if lines == [] then map[]
    else
      var e := es[lines[|lines| - 1]];
      Thresholds(es, lines[..|lines| - 1])[e.rate := e.level]
  }

  /** Line `a` is the first power line past line `o`. */
  ghost predicate FirstPower(es: seq<Event>, o: nat, a: nat) {
    o < a < |es| && es[a].Power? && forall j | o < j < a :: !es[j].Power?
  }

  /** The thresholds of a decision are all the threshold lines while it was in progress. */
  ghost predicate Opening(d: Decision, k: Lines, es: seq<Event>) {
    && AreThresholds(es, k.thresholds) && d.thresh == Thresholds(es, k.thresholds)
    && k.thresholds[0] < k.end <= |es|
    && forall i: nat | k.thresholds[0] <= i < k.end && es[i].Threshold? :: i in k.thresholds
  }

  ghost predicate ReadOnce(d: Decision, k: Lines, es: seq<Event>)
    requires k.thresholds != []
  {
    && (d.after.Some? <==> k.after.Some?)
    && (d.after.Some? ==> var a := k.after.value;
          FirstPower(es, k.thresholds[0], a) && a < k.end && d.after.value == Reading(es[a].sig, es[a].err))
    && (d.after.None? ==> forall j: nat | k.thresholds[0] < j < k.end && j < |es| :: !es[j].Power?)
  }

  ghost predicate Judgements(d: Decision, k: Lines, es: seq<Event>, assumed: bool)
    requires k.thresholds != []
  {
    && (d.figures.Some? <==> k.figures.Some?) && (d.verdict.Some? <==> k.verdict.Some?)
    && (d.figures.Some? ==> k.thresholds[0] < k.figures.value < k.end && TakenAt(d.figures.value, es, k.figures.value))
    && (d.verdict.Some? ==>
          k.thresholds[0] < k.verdict.value < k.end && JudgedAt(d.verdict.value, es, k.verdict.value, assumed))
  }

  /** A decision and the lines it is made of: all threshold lines from the one that began it
      on, the first power line past that, and one line each for figures and verdict. */
  ghost predicate MadeOf(d: Decision, k: Lines, es: seq<Event>, assumed: bool) {
    Opening(d, k, es) && ReadOnce(d, k, es) && Judgements(d, k, es, assumed)
  }

  // ------------------------------------------------------------------- one line further

  lemma {:induction false} ThresholdsLater(es: seq<Event>, e: Event, lines: seq<nat>)
    requires forall i | 0 <= i < |lines| :: lines[i] < |es| && es[lines[i]].Threshold?
    ensures forall i | 0 <= i < |lines| :: lines[i] < |es + [e]| && (es + [e])[lines[i]].Threshold?
    ensures Thresholds(es + [e], lines) == Thresholds(es, lines)
  {
    if lines != [] {
      ThresholdsLater(es, e, lines[..|lines| - 1]);
    }
  }

  lemma OpeningLater(d: Decision, k: Lines, es: seq<Event>, e: Event)
    requires Opening(d, k, es)
    ensures Opening(d, k, es + [e])
    ensures k.end == |es| && !e.Threshold? ==> Opening(d, k.(end := |es| + 1), es + [e])
  {
    ThresholdsLater(es, e, k.thresholds);
    hide Thresholds;
    assert forall i: nat | i < |es| :: (es + [e])[i] == es[i];
    assert (es + [e])[|es|] == e;
  }

  lemma ReadingLater(d: Decision, k: Lines, es: seq<Event>, e: Event)
    requires k.thresholds != [] && k.end <= |es| && ReadOnce(d, k, es)
    ensures ReadOnce(d, k, es + [e])
    ensures k.end == |es| && (!e.Power? || d.after.Some?) ==> ReadOnce(d, k.(end := |es| + 1), es + [e])
  {
    assert forall i: nat | i < |es| :: (es + [e])[i] == es[i];
    assert (es + [e])[|es|] == e;
  }

  lemma JudgementsLater(d: Decision, k: Lines, es: seq<Event>, e: Event, assumed: bool)
    requires k.thresholds != [] && k.end <= |es| && Judgements(d, k, es, assumed)
    ensures Judgements(d, k, es + [e], assumed) && Judgements(d, k.(end := |es| + 1), es + [e], assumed)
  {
    if d.figures.Some? {
      assert (es + [e])[..k.figures.value] == es[..k.figures.value];
    }
    if d.verdict.Some? {
      assert (es + [e])[..k.verdict.value] == es[..k.verdict.value];
    }
    hide Tracked, LastReading;
  }

  lemma MadeOfLater(d: Decision, k: Lines, es: seq<Event>, e: Event, assumed: bool)
    requires MadeOf(d, k, es, assumed)
    ensures MadeOf(d, k, es + [e], assumed)
  {
    OpeningLater(d, k, es, e);
    ReadingLater(d, k, es, e);
    JudgementsLater(d, k, es, e, assumed);
    hide Opening, ReadOnce, Judgements;
  }

  /** The decision in progress: everything up to now could have added to it. */
  ghost predicate InProgress(cur: Option<Decision>, k: Lines, es: seq<Event>, assumed: bool) {
    cur.Some? ==> MadeOf(cur.value, k, es, assumed) && k.end == |es|
  }

  lemma BegunBy(es: seq<Event>, e: Event, assumed: bool, d: Decision, k: Lines)
    requires e.Threshold? && d == Blank().(thresh := map[e.rate := e.level])
    requires k == Lines([|es|], None, None, None, |es| + 1)
    ensures MadeOf(d, k, es + [e], assumed)
  {
    assert [|es|][..0] == [];
    assert (es + [e])[|es|] == e;
    assert Thresholds(es + [e], []) == map[];
    assert Thresholds(es + [e], [|es|]) == map[][e.rate := e.level];
  }

  lemma MoreThresholds(d: Decision, k: Lines, es: seq<Event>, e: Event)
    requires Opening(d, k, es) && k.end == |es| && e.Threshold?
    ensures Opening(d.(thresh := d.thresh[e.rate := e.level]),
                    k.(thresholds := k.thresholds + [|es|], end := |es| + 1), es + [e])
  {
    hide Thresholds, AreThresholds;
    var lines := k.thresholds + [|es|];
    MoreLines(es, e, k.thresholds);
    assert (es + [e])[|es|] == e && lines[|lines| - 1] == |es|;
    forall i: nat | lines[0] <= i < |es| + 1 && (es + [e])[i].Threshold?
      ensures i in lines
    {
      if i < |es| {
        assert (es + [e])[i] == es[i];
      }
    }
  }

  lemma MoreLines(es: seq<Event>, e: Event, lines: seq<nat>)
    requires AreThresholds(es, lines) && e.Threshold?
    ensures AreThresholds(es + [e], lines + [|es|]) && (lines + [|es|])[0] == lines[0]
    ensures Thresholds(es + [e], lines + [|es|]) == Thresholds(es, lines)[e.rate := e.level]
  {
    var more := lines + [|es|];
    ThresholdsLater(es, e, lines);
    assert more[..|lines|] == lines && more[|lines|] == |es|;
    assert (es + [e])[|es|] == e;
    assert forall i | 0 <= i < |lines| :: more[i] == lines[i] && (es + [e])[lines[i]] == es[lines[i]];
    assert Thresholds(es + [e], more) == Thresholds(es + [e], lines)[e.rate := e.level];
    hide Thresholds;
  }

  /** One line further a decision in progress is made of the same lines and perhaps this one. */
  lemma CurMadeOf(cur: Option<Decision>, k: Lines, es: seq<Event>, e: Event, assumed: bool) returns (next: Lines)
    requires InProgress(cur, k, es, assumed)
    ensures InProgress(CurStep(cur, e, Tracked(es), LastReading(es), assumed), next, es + [e], assumed)
  {
    hide Tracked, LastReading, Opening, ReadOnce, Judgements, TakenAt, JudgedAt;
    var n := |es|;
    next := k.(end := n + 1);
    if cur.None? {
      if e.Threshold? {
        next := Lines([n], None, None, None, n + 1);
        var d := Blank().(thresh := map[e.rate := e.level]);
        BegunBy(es, e, assumed, d, next);
      }
    } else {
      var d := cur.value;
      OpeningSome(d, k, es);
      OpeningLater(d, k, es, e);
      ReadingLater(d, k, es, e);
      JudgementsLater(d, k, es, e, assumed);
      match e
      case Power(_, _, _) =>
        if d.after.None? {
          next := next.(after := Some(n));
          AddReading(d, k, es, e, assumed);
        }
      case Threshold(r, v) =>
        next := next.(thresholds := k.thresholds + [n]);
        MoreThresholds(d, k, es, e);
        SameFirst(d, k, es + [e], assumed, d.(thresh := d.thresh[r := v]), next);
      case Ladder(_, _, _) =>
        next := next.(figures := Some(n));
        AddFigures(d, k, es, e, assumed);
      case Decide(_, _) =>
        next := next.(verdict := Some(n));
        AddVerdict(d, k, es, e, assumed);
      case Choice(c) =>
        SameParts(d, next, es + [e], assumed, d.(choice := Some(c)));
      case Final(tx, rx) =>
        SameParts(d, next, es + [e], assumed, d.(rates := Some((tx, rx))));
      case _ =>
    }
  }

  lemma OpeningSome(d: Decision, k: Lines, es: seq<Event>)
    requires Opening(d, k, es)
    ensures k.thresholds != [] && k.end <= |es| && k.thresholds[0] < |es|
  {
  }

  /** Nothing but the parts matters. */
  lemma SameParts(d: Decision, k: Lines, es: seq<Event>, assumed: bool, other: Decision)
    requires MadeOf(d, k, es, assumed)
    requires other.thresh == d.thresh && other.after == d.after
    requires other.figures == d.figures && other.verdict == d.verdict
    ensures MadeOf(other, k, es, assumed)
  {
    hide Thresholds, TakenAt, JudgedAt;
  }

  /** Reading, figures and verdict go by the first threshold only. */
  lemma SameFirst(d: Decision, k: Lines, es: seq<Event>, assumed: bool, other: Decision, next: Lines)
    requires k.thresholds != [] && next.thresholds != [] && next.thresholds[0] == k.thresholds[0]
    requires next.after == k.after && next.figures == k.figures && next.verdict == k.verdict
    requires other.after == d.after && other.figures == d.figures && other.verdict == d.verdict
    requires ReadOnce(d, k.(end := next.end), es) && Judgements(d, k.(end := next.end), es, assumed)
    ensures ReadOnce(other, next, es) && Judgements(other, next, es, assumed)
  {
    hide TakenAt, JudgedAt;
  }

  lemma AddReading(d: Decision, k: Lines, es: seq<Event>, e: Event, assumed: bool)
    requires MadeOf(d, k, es, assumed) && k.end == |es| && e.Power? && d.after.None?
    ensures MadeOf(d.(after := Some(Reading(e.sig, e.err))), k.(after := Some(|es|), end := |es| + 1),
                   es + [e], assumed)
  {
    OpeningLater(d, k, es, e);
    JudgementsLater(d, k, es, e, assumed);
    hide Thresholds, TakenAt, JudgedAt, AreThresholds;
    assert forall i: nat | i < |es| :: (es + [e])[i] == es[i];
    assert (es + [e])[|es|] == e;
  }

  lemma AddFigures(d: Decision, k: Lines, es: seq<Event>, e: Event, assumed: bool)
    requires MadeOf(d, k, es, assumed) && k.end == |es| && e.Ladder?
    ensures MadeOf(d.(figures := Some(Snapshot(e, Tracked(es)))),
                   k.(figures := Some(|es|), end := |es| + 1), es + [e], assumed)
  {
    OpeningLater(d, k, es, e);
    ReadingLater(d, k, es, e);
    JudgementsLater(d, k, es, e, assumed);
    assert (es + [e])[..|es|] == es;
    hide Thresholds, JudgedAt, AreThresholds, Tracked, LastReading, FirstPower;
  }

  lemma AddVerdict(d: Decision, k: Lines, es: seq<Event>, e: Event, assumed: bool)
    requires MadeOf(d, k, es, assumed) && k.end == |es| && e.Decide?
    ensures MadeOf(d.(verdict := Some(Judge(e, LastReading(es), assumed))),
                   k.(verdict := Some(|es|), end := |es| + 1), es + [e], assumed)
  {
    OpeningLater(d, k, es, e);
    ReadingLater(d, k, es, e);
    JudgementsLater(d, k, es, e, assumed);
    assert (es + [e])[..|es|] == es;
    hide Thresholds, TakenAt, AreThresholds, Tracked, LastReading, FirstPower;
  }

  /** A decision is made of some lines. */
  ghost predicate Traced(d: Decision, es: seq<Event>, assumed: bool) {
    exists k :: MadeOf(d, k, es, assumed)
  }

  lemma TracedLater(d: Decision, es: seq<Event>, e: Event, assumed: bool)
    requires Traced(d, es, assumed)
    ensures Traced(d, es + [e], assumed)
  {
    hide MadeOf;
    var k :| MadeOf(d, k, es, assumed);
    MadeOfLater(d, k, es, e, assumed);
  }

  lemma {:induction false} RunTraced(es: seq<Event>, assumed: bool) returns (k: Lines)
    ensures InProgress(Run(es, assumed).cur, k, es, assumed)
    ensures forall d | d in Run(es, assumed).out :: Traced(d, es, assumed)
  {
    if es == [] {
      k := Lines([], None, None, None, 0);
    } else {
      var n := |es| - 1;
      var init, e := es[..n], es[n];
      var was := RunTraced(init, assumed);
      RunTracks(init, assumed);
      RunReads(init, assumed);
      assert init + [e] == es;
      var m := Run(init, assumed);
      hide Run, Traced, MadeOf, Tracked, LastReading, CurStep;
      k := CurMadeOf(m.cur, was, init, e, assumed);
      forall d | d in m.out
        ensures Traced(d, es, assumed)
      {
        TracedLater(d, init, e, assumed);
      }
      RunStep(es, assumed);
      var next := CurStep(m.cur, e, m.track, m.last, assumed);
      if next.Some? {
        TracedBy(next.value, k, es, assumed);
      }
    }
  }

  lemma TracedBy(d: Decision, k: Lines, es: seq<Event>, assumed: bool)
    requires MadeOf(d, k, es, assumed)
    ensures Traced(d, es, assumed)
  {
  }

  /** In every log each decision is made of lines of that kind. */
  lemma DecisionLines(es: seq<Event>, assumed: bool, d: Decision) returns (k: Lines)
    requires d in Decisions(es, assumed)
    ensures MadeOf(d, k, es, assumed)
  {
    hide MadeOf;
    var last := RunTraced(es, assumed);
    if d in Run(es, assumed).out {
      k :| MadeOf(d, k, es, assumed);
    } else {
      k := last;
    }
  }

  // ------------------------------------------------------------------- one handshake

  /** The line that starts the handshake of line `i`, or -1 where the log shows none. */
  ghost function StartOf(es: seq<Event>, i: nat): (h: int)
    requires i < |es|
    ensures -1 <= h <= i && (h >= 0 ==> StartsAt(es, h))
    ensures forall j | h < j <= i :: !StartsAt(es, j)
  {
    if StartsAt(es, i) then i else if i == 0 then -1 else StartOf(es, i - 1)
  }

  /** Two lines of one handshake. */
  ghost predicate Together(es: seq<Event>, i: nat, j: nat)
    requires i < |es| && j < |es|
  {
    StartOf(es, i) == StartOf(es, j)
  }

  /** An earlier line is of a later one's handshake exactly when it is not before its start,
      that is when no handshake starts in between. */
  lemma TogetherExactly(es: seq<Event>, i: nat, j: nat)
    requires i <= j < |es|
    ensures Together(es, i, j) <==> i >= StartOf(es, j)
    ensures Together(es, i, j) <==> forall h | i < h <= j :: !StartsAt(es, h)
  {
    hide StartsAt;
    var h, g := StartOf(es, j), StartOf(es, i);
    assert i >= h ==> g >= h;
  }

  /** The last power line, or -1. */
  function LastPower(es: seq<Event>): (p: int)
    ensures -1 <= p < |es| && (p >= 0 ==> es[p].Power?) && forall j | p < j < |es| :: !es[j].Power?
  {
    if es == [] then -1
    else if es[|es| - 1].Power? then |es| - 1
    else LastPower(es[..|es| - 1])
  }

  lemma {:induction false} LastPowerReads(es: seq<Event>)
    ensures LastReading(es)
         == if LastPower(es) < 0 then None else Some(Reading(es[LastPower(es)].sig, es[LastPower(es)].err))
  {
    if es != [] {
      LastPowerReads(es[..|es| - 1]);
    }
  }

  /** The line whose power goes with a verdict at line `q`. */
  ghost function PowerLine(es: seq<Event>, q: nat): int
    requires q < |es|
  {
    LastPower(es[..q])
  }

  /** Thresholds, whenever they came, are of the figures' handshake exactly when none starts
      from the line that began the decision to its figures, nor from there to the last threshold. */
  lemma ThresholdsTogether(es: seq<Event>, k: Lines, n: nat)
    requires AreThresholds(es, k.thresholds) && k.thresholds[0] < n < |es|
    ensures (forall i | i in k.thresholds && i < n :: Together(es, i, n)) <==> k.thresholds[0] >= StartOf(es, n)
    ensures k.thresholds[0] >= StartOf(es, n) <==> forall h | k.thresholds[0] < h <= n :: !StartsAt(es, h)
    ensures (forall i | i in k.thresholds && i > n :: Together(es, i, n))
       <==> forall h, i | i in k.thresholds && n < h <= i :: !StartsAt(es, h)
  {
    hide StartsAt, StartOf, Together;
    var o := k.thresholds[0];
    assert o in k.thresholds;
    TogetherExactly(es, o, n);
    forall i | i in k.thresholds && i < n
      ensures Together(es, i, n) <==> i >= StartOf(es, n)
    {
      TogetherExactly(es, i, n);
    }
    assert forall i | i in k.thresholds :: i >= o;
    forall i | i in k.thresholds && i > n
      ensures Together(es, i, n) <==> forall h | n < h <= i :: !StartsAt(es, h)
    {
      TogetherExactly(es, n, i);
      Symmetric(es, n, i);
    }
  }

  lemma Symmetric(es: seq<Event>, i: nat, j: nat)
    requires i < |es| && j < |es|
    ensures Together(es, i, j) == Together(es, j, i)
  {
  }

  /** Any single line is of the figures' handshake exactly when no handshake starts between
      the two. */
  lemma LineTogether(es: seq<Event>, i: nat, n: nat)
    requires i < |es| && n < |es|
    ensures i <= n ==> (Together(es, i, n) <==> i >= StartOf(es, n))
    ensures Together(es, i, n)
       <==> forall h | (if i <= n then i < h <= n else n < h <= i) :: !StartsAt(es, h)
  {
    hide StartsAt, StartOf, Together;
    if i <= n {
      TogetherExactly(es, i, n);
    } else {
      TogetherExactly(es, n, i);
      Symmetric(es, n, i);
    }
  }

  /** The lines every part of a decision came from. */
  ghost predicate PartLine(es: seq<Event>, k: Lines, d: Decision, i: nat) {
    || i in k.thresholds
    || k.after == Some(i)
    || k.figures == Some(i)
    || (d.verdict.Some? && d.verdict.value.sigpow.Some? && k.verdict.Some? && k.verdict.value < |es|
        && PowerLine(es, k.verdict.value) == i)
  }

  /** No handshake starts between two lines that a decision's parts came from. */
  ghost predicate Undivided(es: seq<Event>, k: Lines, d: Decision) {
    forall h, i: nat, j: nat | PartLine(es, k, d, i) && PartLine(es, k, d, j) && i < h <= j :: !StartsAt(es, h)
  }

  lemma PartsInside(es: seq<Event>, k: Lines, d: Decision, assumed: bool, i: nat)
    requires MadeOf(d, k, es, assumed) && PartLine(es, k, d, i)
    ensures i < |es|
  {
    hide Thresholds, LastReading, Tracked;
    if i in k.thresholds {
      var j :| 0 <= j < |k.thresholds| && k.thresholds[j] == i;
    }
  }

  /** All parts of a decision are of its figures' handshake exactly when no handshake starts
      between any two of the lines they came from. */
  lemma PartsTogetherExactly(es: seq<Event>, k: Lines, d: Decision, assumed: bool)
    requires MadeOf(d, k, es, assumed) && d.figures.Some?
    ensures k.figures.Some? && k.figures.value < |es|
    ensures forall i: nat | PartLine(es, k, d, i) :: i < |es|
    ensures (forall i: nat | PartLine(es, k, d, i) :: Together(es, i, k.figures.value)) <==> Undivided(es, k, d)
  {
    assert k.figures.Some? && k.figures.value < |es|;
    var n := k.figures.value;
    assert PartLine(es, k, d, n);
    forall i: nat | PartLine(es, k, d, i)
      ensures i < |es|
    {
      PartsInside(es, k, d, assumed, i);
    }
    hide MadeOf, StartsAt, StartOf, PartLine, Together;
    forall i: nat, j: nat | PartLine(es, k, d, i) && PartLine(es, k, d, j) && i <= j
      ensures Together(es, i, j) <==> forall h | i < h <= j :: !StartsAt(es, h)
    {
      TogetherExactly(es, i, j);
    }
    if forall i: nat | PartLine(es, k, d, i) :: Together(es, i, n) {
      forall i: nat, j: nat | PartLine(es, k, d, i) && PartLine(es, k, d, j) && i <= j
        ensures Together(es, i, j)
      {
        Transitive(es, i, n, j);
      }
    }
    if Undivided(es, k, d) {
      forall i: nat | PartLine(es, k, d, i)
        ensures Together(es, i, n)
      {
        LineTogether(es, i, n);
      }
    }
  }

  lemma Transitive(es: seq<Event>, i: nat, n: nat, j: nat)
    requires i < |es| && j < |es| && n < |es| && Together(es, i, n) && Together(es, j, n)
    ensures Together(es, i, j)
  {
  }

  /** A signal power with a decision is the power line's before its verdict, and the error
      there is the decision's. */
  lemma PowerOfVerdict(es: seq<Event>, k: Lines, d: Decision, assumed: bool)
    requires MadeOf(d, k, es, assumed) && d.verdict.Some? && d.verdict.value.sigpow.Some?
    ensures k.verdict.Some? && k.verdict.value < |es|
    ensures var p := PowerLine(es, k.verdict.value);
            && 0 <= p < k.verdict.value && es[p].Power? && PartLine(es, k, d, p)
            && d.verdict.value.sigpow == Some(es[p].sig) && es[p].err == d.verdict.value.equerr
  {
    var q := k.verdict.value;
    LastPowerReads(es[..q]);
    hide Opening, ReadOnce;
  }

  /** In every log: the lines a decision with figures is made of, and exactly when they are all
      of its figures' handshake. */
  lemma DecisionParts(es: seq<Event>, assumed: bool, d: Decision) returns (k: Lines)
    requires d in Decisions(es, assumed) && d.figures.Some?
    ensures MadeOf(d, k, es, assumed) && k.figures.Some? && k.figures.value < |es|
    ensures forall i: nat | PartLine(es, k, d, i) :: i < |es|
    ensures (forall i: nat | PartLine(es, k, d, i) :: Together(es, i, k.figures.value)) <==> Undivided(es, k, d)
  {
    k := DecisionLines(es, assumed, d);
    PartsTogetherExactly(es, k, d, assumed);
    hide MadeOf, PartLine, Together, Undivided;
  }
}
