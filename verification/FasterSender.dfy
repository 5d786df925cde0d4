/** A start-stop sender faster than its receiver.  The receiver takes ten of its own bits
    for a character, so each is found later into its start bit than the one before, until
    the line rests; how late decides how many are read. */
module FasterSender {
  import opened StartStop

  /** How far past the first sample of its start bit character `j` may be found. */
  function Lag(chars: seq<Char>, spb: real, j: nat): (lag: real)
    requires j < |chars|
    ensures lag >= 0.0
  {
    if j == 0 then 0.0
    else
      var late := Lag(chars, spb, j - 1) + 10.0 * spb - (chars[j].edge - chars[j - 1].edge);
      if late < 0.0 then 0.0 else late
  }

  /** The lag stays below half a bit, less what one more character and one sample take. */
  ghost predicate KeepsUp(chars: seq<Char>, spb: real, period: real) {
    && period <= spb
    && forall j | 0 <= j < |chars| :: Lag(chars, spb, j) + 10.0 * (spb - period) + 1.0 <= spb / 2.0
  }

  /** A character read as it was sent, found at most `lag` after its first sample. */
  ghost predicate ReadAs(found: (nat, nat), c: Char, lag: real) {
    found.1 == c.octet && c.edge <= found.0 as real < c.edge + 1.0 + lag
  }

  /** Every character is due to be found before the hunt stops. */
  ghost predicate Whole(l: Line, chars: seq<Char>) {
    forall j | 0 <= j < |chars| :: chars[j].edge + 1.0 + Lag(chars, l.spb, j) <= Limit(l) as real
  }

  lemma LagNext(chars: seq<Char>, spb: real, j: nat)
    requires j + 1 < |chars|
    ensures Lag(chars, spb, j + 1) >= Lag(chars, spb, j) + 10.0 * spb - (chars[j + 1].edge - chars[j].edge)
  {
  }

  lemma LagTracks(spb: real, period: real, lag: real, off: real)
    requires period <= spb && 0.0 <= lag && 0.0 <= off < 1.0 + lag && lag + 10.0 * (spb - period) + 1.0 <= spb / 2.0
    ensures Tracks(spb, period, off)
  {
  }

  /** Where the cursor stands once the next start edge has been hunted for. */
  function Start(chars: seq<Char>, j: nat, i: nat): (at: int)
    requires j < |chars|
    ensures at >= i
  {
    if i <= Ceil(chars[j].edge) then Ceil(chars[j].edge) else i
  }

  /** One character: hunted for, read, and the cursor left within the next one's lag. */
  lemma ReadNext(l: Line, chars: seq<Char>, period: real, j: nat, i: nat) returns (at: nat, next: nat)
    requires WellFormed(l) && Sends(l, chars, period) && KeepsUp(chars, l.spb, period) && Whole(l, chars)
    requires j < |chars| && (j > 0 ==> chars[j - 1].edge + 9.0 * period <= i as real)
    requires i as real < chars[j].edge + 1.0 + Lag(chars, l.spb, j)
    ensures ReadAs((at, chars[j].octet), chars[j], Lag(chars, l.spb, j))
    ensures Decoded(l, i) == [(at, chars[j].octet)] + Decoded(l, next)
    ensures chars[j].edge + 9.0 * period <= next as real
    ensures j + 1 < |chars| ==> next as real < chars[j + 1].edge + 1.0 + Lag(chars, l.spb, j + 1)
  {
    hide Decoded, Octet, Accepts, Resync, Sends;
    var c, lag := chars[j], Lag(chars, l.spb, j);
    at := Start(chars, j, i);
    CeilIs(c.edge);
    if i <= Ceil(c.edge) {
      HuntFinds(l, chars, period, j, i);
    }
    LagTracks(l.spb, period, lag, at as real - c.edge);
    assert at < Limit(l);
    CharacterReads(l, chars, period, j, at);
    DecodedStep(l, at);
    next := Resync(l, at);
    if j + 1 < |chars| {
      LagNext(chars, l.spb, j);
    }
  }

  /** From any cursor close enough to the next character, all that follow are read. */
  lemma {:induction false} AllRead(l: Line, chars: seq<Char>, period: real, j: nat, i: nat)
    requires WellFormed(l) && Sends(l, chars, period) && KeepsUp(chars, l.spb, period) && Whole(l, chars)
    requires j <= |chars| && (j > 0 ==> chars[j - 1].edge + 9.0 * period <= i as real)
    requires j < |chars| ==> i as real < chars[j].edge + 1.0 + Lag(chars, l.spb, j)
    ensures |Decoded(l, i)| == |chars| - j
    ensures forall m | j <= m < |chars| :: ReadAs(Decoded(l, i)[m - j], chars[m], Lag(chars, l.spb, m))
    decreases |chars| - j
  {
    hide Sends, KeepsUp, Whole, WellFormed, Decoded, Lag, ReadAs;
    if j == |chars| {
      HuntFinds(l, chars, period, j, i);
    } else {
      var at, next := ReadNext(l, chars, period, j, i);
      AllRead(l, chars, period, j + 1, next);
      forall m | j <= m < |chars|
        ensures ReadAs(Decoded(l, i)[m - j], chars[m], Lag(chars, l.spb, m))
      {
        if m > j {
          assert Decoded(l, i)[m - j] == Decoded(l, next)[m - (j + 1)];
        }
      }
    }
  }

  /** A sender that keeps up within the lag is read whole, in order, each character found
      within its lag of its own start edge. */
  lemma FasterSenderDecodes(l: Line, chars: seq<Char>, period: real)
    requires WellFormed(l) && Sends(l, chars, period) && KeepsUp(chars, l.spb, period) && Whole(l, chars)
    ensures |Decoded(l, l.spb.Floor)| == |chars|
    ensures forall m | 0 <= m < |chars| ::
              ReadAs(Decoded(l, l.spb.Floor)[m], chars[m], Lag(chars, l.spb, m))
  {
    hide KeepsUp, Whole, Decoded, ReadAs;
    FirstLater(l, chars, period);
    AllRead(l, chars, period, 0, l.spb.Floor);
    hide *;
    forall m | 0 <= m < |chars|
      ensures ReadAs(Decoded(l, l.spb.Floor)[m], chars[m], Lag(chars, l.spb, m))
    {
      assert Decoded(l, l.spb.Floor)[m - 0] == Decoded(l, l.spb.Floor)[m];
    }
  }

  lemma FirstLater(l: Line, chars: seq<Char>, period: real)
    requires Sends(l, chars, period)
    ensures chars != [] ==> l.spb.Floor as real < chars[0].edge + 1.0 + Lag(chars, l.spb, 0)
  {
  }

  // ----------------------------------------------------------- how many, and with rests

  /** Back to back, every character costs the ten bits' difference at most. */
  lemma {:induction false} LagGrows(l: Line, chars: seq<Char>, period: real, j: nat)
    requires Sends(l, chars, period) && period <= l.spb && j < |chars|
    ensures Lag(chars, l.spb, j) <= 10.0 * (j as real * (l.spb - period))
  {
    hide Sends, Lag;
    var d := l.spb - period;
    NotNegative(j, d);
    if j == 0 {
      LagFirst(chars, l.spb, j, j as real * d);
    } else {
      LagGrows(l, chars, period, j - 1);
      GapAtLeast(l, chars, period, j);
      OneLess(j, d);
      LagStep(chars, l.spb, period, j, d, (j - 1) as real * d, j as real * d);
    }
  }

  lemma LagFirst(chars: seq<Char>, spb: real, j: nat, now: real)
    requires j == 0 < |chars| && now >= 0.0
    ensures Lag(chars, spb, j) <= 10.0 * now
  {
  }

  lemma LagStep(chars: seq<Char>, spb: real, period: real, j: nat, d: real, before: real, now: real)
    requires 0 < j < |chars| && Lag(chars, spb, j - 1) <= 10.0 * before && now == before + d && now >= 0.0
    requires chars[j].edge - chars[j - 1].edge >= 10.0 * period && d == spb - period
    ensures Lag(chars, spb, j) <= 10.0 * now
  {
  }

  lemma OneLess(j: nat, d: real)
    requires j > 0
    ensures j as real * d == (j - 1) as real * d + d
  {
    assert j as real == (j - 1) as real + 1.0;
  }

  lemma GapAtLeast(l: Line, chars: seq<Char>, period: real, j: nat)
    requires Sends(l, chars, period) && 0 < j < |chars|
    ensures chars[j].edge - chars[j - 1].edge >= 10.0 * period
  {
  }

  lemma NotNegative(j: nat, d: real)
    requires d >= 0.0
    ensures j as real * d >= 0.0
  {
  }

  lemma MoreIsMore(j: nat, n: nat, d: real)
    requires j <= n && d >= 0.0
    ensures j as real * d <= n as real * d
  {
  }

  /** However close together, so many characters are read that twenty times their number
      times the difference of the two bit lengths leaves two samples of a bit. */
  lemma SoManyAreRead(l: Line, chars: seq<Char>, period: real)
    requires Sends(l, chars, period) && period <= l.spb
    requires chars == [] || 20.0 * (|chars| as real * (l.spb - period)) + 2.0 <= l.spb
    ensures KeepsUp(chars, l.spb, period)
  {
    hide Sends, KeepsUp, Lag;
    var d := l.spb - period;
    forall j | 0 <= j < |chars|
      ensures Lag(chars, l.spb, j) + 10.0 * d + 1.0 <= l.spb / 2.0
    {
      LagGrows(l, chars, period, j);
      RoomFor(l.spb, d, j, |chars|, Lag(chars, l.spb, j));
    }
    KeepsUpWhen(chars, l.spb, period);
  }

  lemma KeepsUpWhen(chars: seq<Char>, spb: real, period: real)
    requires period <= spb
    requires forall j | 0 <= j < |chars| :: Lag(chars, spb, j) + 10.0 * (spb - period) + 1.0 <= spb / 2.0
    ensures KeepsUp(chars, spb, period)
  {
  }

  lemma RoomFor(spb: real, d: real, j: nat, n: nat, lag: real)
    requires d >= 0.0 && j < n && lag <= 10.0 * (j as real * d) && 20.0 * (n as real * d) + 2.0 <= spb
    ensures lag + 10.0 * d + 1.0 <= spb / 2.0
  {
    OneMoreTime(j, d);
    MoreIsMore(j + 1, n, d);
  }

  /** A sender that rests to ten of the receiver's bits a character never falls behind. */
  lemma {:induction false} RestsPayBack(chars: seq<Char>, spb: real, j: nat)
    requires j < |chars| && forall m | 0 < m < |chars| :: chars[m].edge - chars[m - 1].edge >= 10.0 * spb
    ensures Lag(chars, spb, j) == 0.0
  {
    if j > 0 {
      RestsPayBack(chars, spb, j - 1);
    }
  }

  /** So any number of characters is read from it. */
  lemma AnyNumberIsRead(chars: seq<Char>, spb: real, period: real)
    requires period <= spb && 20.0 * (spb - period) + 2.0 <= spb
    requires forall m | 0 < m < |chars| :: chars[m].edge - chars[m - 1].edge >= 10.0 * spb
    ensures KeepsUp(chars, spb, period)
  {
    forall j | 0 <= j < |chars|
      ensures Lag(chars, spb, j) + 10.0 * (spb - period) + 1.0 <= spb / 2.0
    {
      RestsPayBack(chars, spb, j);
    }
  }
}
