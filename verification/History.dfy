/** The recursive filter with descending-cursor histories, proved to be the plain
    difference equation over everything fed in so far. */
module History {
  import opened Numbers

  /** Sample `k` back in a delay line that starts out silent; `0` is the newest. */
  function Past(s: seq<real>, k: nat): real {
    if k < |s| then s[|s| - 1 - k] else 0.0
  }

  // ------------------------------------------------------------------------ compaction

  /** The `n - 1` entries at the bottom repeated at the top. */
  function Compacted(h: seq<real>, n: nat): seq<real>
    requires 1 <= n <= |h|
  {
    h[..|h| - (n - 1)] + h[..n - 1]
  }

  /** The copy as two walking pointers, counting down to a sentinel.  The destination
      stays above the source, so no entry is overwritten before it is read. */
  method CompactWalking(hist: array<real>, n: nat)
    requires 1 <= n <= hist.Length
    modifies hist
    ensures hist[..] == Compacted(old(hist[..]), n)
  {
    if n > 1 {
      var dst, src := hist.Length - 1, n - 2;
      var k: int := n - 2;
      while k != -1
        invariant -1 <= k <= n - 2
        invariant src == k && dst == k + hist.Length - (n - 1)
        invariant forall j | 0 <= j <= dst :: hist[j] == old(hist[j])
        invariant forall j | dst < j < hist.Length :: hist[j] == old(hist[j - (hist.Length - (n - 1))])
        decreases k
      {
        hist[dst] := hist[src];
        dst, src := dst - 1, src - 1;
        k := k - 1;
      }
    }
  }

  /** The same copy as an index loop. */
  method CompactIndexed(hist: array<real>, n: nat)
    requires 1 <= n <= hist.Length
    modifies hist
    ensures hist[..] == Compacted(old(hist[..]), n)
  {
    ghost var was, gap := hist[..], hist.Length - (n - 1);
    var k := 0;
    while k + 1 < n
      invariant 0 <= k <= n - 1
      invariant forall j | 0 <= j < hist.Length - k :: hist[j] == was[j]
      invariant forall j | hist.Length - k <= j < hist.Length :: hist[j] == was[j - gap]
    {
      hist[hist.Length - 1 - k] := hist[n - 2 - k];
      k := k + 1;
    }
  }

  // --------------------------------------------------------------------------- cursors

  function Decremented(pos: nat): nat {
    (pos + WORD - 1) % WORD
  }

  /** An unsigned word read as signed is negative. */
  predicate ReadsNegative(word: nat) {
    word >= WORD / 2
  }

  /** Decrementing and testing the sign is testing for zero first, exactly for cursors in
      the lower half of the range. */
  lemma CursorFormsAgree(pos: nat)
    requires pos < WORD
    ensures (ReadsNegative(Decremented(pos)) <==> pos == 0) <==> pos <= WORD / 2
    ensures pos != 0 ==> Decremented(pos) == pos - 1
  {
    if pos > 0 {
      assert pos + WORD - 1 == (pos - 1) + WORD;
    }
  }

  /** The window above the cursor holds the newest samples. */
  ghost predicate Holds(h: seq<real>, pos: nat, n: nat, s: seq<real>) {
    && 1 <= n && pos + n <= |h| <= WORD / 2
    && forall k | 0 <= k < n - 1 :: h[pos + 1 + k] == Past(s, k)
  }

  /** With the new sample at the cursor the window is one longer. */
  ghost predicate HoldsAll(h: seq<real>, pos: nat, n: nat, s: seq<real>) {
    && 1 <= n && pos + n <= |h| <= WORD / 2
    && forall k | 0 <= k < n :: h[pos + k] == Past(s, k)
  }

  lemma StoreHolds(h: seq<real>, pos: nat, n: nat, s: seq<real>, x: real)
    requires Holds(h, pos, n, s)
    ensures HoldsAll(h[pos := x], pos, n, s + [x])
  {
    var h' := h[pos := x];
    forall k | 0 <= k < n
      ensures h'[pos + k] == Past(s + [x], k)
    {
      if k > 0 {
        assert h[pos + 1 + (k - 1)] == Past(s, k - 1);
      }
    }
  }

  lemma StepHolds(h: seq<real>, pos: nat, n: nat, s: seq<real>)
    requires HoldsAll(h, pos, n, s) && pos > 0
    ensures Holds(h, pos - 1, n, s)
  {
    forall k | 0 <= k < n - 1
      ensures h[pos - 1 + 1 + k] == Past(s, k)
    {
      assert h[pos + k] == Past(s, k);
    }
  }

  lemma CompactHolds(h: seq<real>, n: nat, s: seq<real>)
    requires HoldsAll(h, 0, n, s)
    ensures Holds(Compacted(h, n), |h| - n, n, s)
  {
    forall k | 0 <= k < n - 1
      ensures Compacted(h, n)[|h| - n + 1 + k] == Past(s, k)
    {
      assert h[0 + k] == Past(s, k);
    }
  }

  /** The end of a step: the cursor moves down, or the history is compacted. */
  method Advance(hist: array<real>, pos: nat, n: nat, ghost s: seq<real>) returns (next: nat)
    requires HoldsAll(hist[..], pos, n, s)
    modifies hist
    ensures Holds(hist[..], next, n, s)
    ensures next == if pos == 0 then hist.Length - n else pos - 1
  {
    next := Decremented(pos);
    CursorFormsAgree(pos);
    if ReadsNegative(next) {
      next := hist.Length - n;
      CompactHolds(hist[..], n, s);
      CompactWalking(hist, n);
    } else {
      StepHolds(hist[..], pos, n, s);
    }
  }

  // ------------------------------------------------------------------------ the filter

  /** The first `k` products of the feedforward sum. */
  function Forward(num: seq<real>, k: nat, xs: seq<real>): real
    requires k <= |num|
  {
    if k == 0 then 0.0 else Forward(num, k - 1, xs) + num[k - 1] * Past(xs, k - 1)
  }

  /** The feedback sum's products `1` to `k - 1`, over outputs before this one. */
  function Feedback(den: seq<real>, k: nat, ys: seq<real>): real
    requires 1 <= k <= |den|
  {
    if k == 1 then 0.0 else Feedback(den, k - 1, ys) + den[k - 1] * Past(ys, k - 2)
  }

  /** The difference equation: the output for the newest of `xs`, after outputs `ys`. */
  function Output(num: seq<real>, den: seq<real>, xs: seq<real>, ys: seq<real>): real
    requires den != []
  {
    (Forward(num, |num|, xs) - Feedback(den, |den|, ys)) / (if den[0] != 0.0 then den[0] else 1.0)
  }

  /** The outputs for a whole input, from silence. */
  function Filtered(num: seq<real>, den: seq<real>, xs: seq<real>): (ys: seq<real>)
    requires den != []
    ensures |ys| == |xs|
  {
    if xs == [] then []
    else
      var ys := Filtered(num, den, xs[..|xs| - 1]);
      ys + [Output(num, den, xs, ys)]
  }

  /** The terms c[0] s[n] + c[1] s[n-1] + ... up to c[k-1], as far back as the sequence goes. */
  function Terms(c: seq<real>, s: seq<real>, n: nat, k: nat): real
    requires k <= |c| && n < |s|
  {
    if k == 0 then 0.0 else Terms(c, s, n, k - 1) + (if k - 1 <= n then c[k - 1] * s[n - (k - 1)] else 0.0)
  }

  /** The difference equation of the filter, over the whole input and output: the outputs
      weighted by the denominator are the inputs weighted by the numerator.  A leading zero
      of the denominator counts as one. */
  lemma DifferenceEquation(num: seq<real>, den: seq<real>, xs: seq<real>, n: nat)
    requires den != [] && n < |xs|
    ensures var lead := if den[0] != 0.0 then den[0] else 1.0;
            Terms(den[0 := lead], Filtered(num, den, xs), n, |den|) == Terms(num, xs, n, |num|)
  {
    var lead := if den[0] != 0.0 then den[0] else 1.0;
    EquationHolds(num, den, den[0 := lead], lead, xs, Filtered(num, den, xs), n);
  }

  lemma EquationHolds(
      num: seq<real>, den: seq<real>, d: seq<real>, lead: real, xs: seq<real>, ys: seq<real>, n: nat)
    requires den != [] && n < |xs| && lead == (if den[0] != 0.0 then den[0] else 1.0)
    requires d == den[0 := lead] && ys == Filtered(num, den, xs)
    ensures Terms(d, ys, n, |den|) == Terms(num, xs, n, |num|)
  {
    assert |d| == |den| && d[0] == lead && forall i | 1 <= i < |den| :: d[i] == den[i];
    hide Forward, Feedback, Filtered, Terms, Output, Scaled;
    FilteredAt(num, den, xs, n);
    ForwardTerms(num, xs, n, |num|);
    FeedbackTerms(den, d, lead, ys, n, |den|);
    OutputIs(num, den, xs[..n + 1], ys[..n], lead);
  }

  function Scaled(d: real, y: real): real {
    d * y
  }

  lemma Undivided(a: real, d: real)
    requires d != 0.0
    ensures Scaled(d, a / d) == a
  {
  }

  lemma OutputIs(num: seq<real>, den: seq<real>, xs: seq<real>, ys: seq<real>, lead: real)
    requires den != [] && lead == if den[0] != 0.0 then den[0] else 1.0
    ensures Scaled(lead, Output(num, den, xs, ys)) == Forward(num, |num|, xs) - Feedback(den, |den|, ys)
  {
    hide Forward, Feedback;
    Undivided(Forward(num, |num|, xs) - Feedback(den, |den|, ys), lead);
  }

  lemma FilteredAt(num: seq<real>, den: seq<real>, xs: seq<real>, n: nat)
    requires den != [] && n < |xs|
    ensures var ys := Filtered(num, den, xs); ys[n] == Output(num, den, xs[..n + 1], ys[..n])
  {
    hide Output, Forward, Feedback;
    FilterIsCausal(num, den, xs[..n + 1], xs[n + 1..]);
    FilterIsCausal(num, den, xs[..n], xs[n..]);
    assert xs[..n + 1] + xs[n + 1..] == xs && xs[..n] + xs[n..] == xs;
    assert xs[..n + 1][..n] == xs[..n];
    var ys := Filtered(num, den, xs);
    assert ys[..n + 1][n] == ys[n];
  }

  lemma {:induction false} ForwardTerms(num: seq<real>, xs: seq<real>, n: nat, k: nat)
    requires k <= |num| && n < |xs|
    ensures Forward(num, k, xs[..n + 1]) == Terms(num, xs, n, k)
  {
    if k > 0 {
      ForwardTerms(num, xs, n, k - 1);
    }
  }

  lemma {:induction false} FeedbackTerms(den: seq<real>, d: seq<real>, lead: real, ys: seq<real>, n: nat, k: nat)
    requires 1 <= k <= |den| == |d| && n < |ys| && d[0] == lead && forall i | 1 <= i < |den| :: d[i] == den[i]
    ensures Terms(d, ys, n, k) == Scaled(lead, ys[n]) + Feedback(den, k, ys[..n])
    decreases k
  {
    if k > 1 {
      FeedbackTerms(den, d, lead, ys, n, k - 1);
    } else {
      assert Terms(d, ys, n, 0) == 0.0;
    }
  }

  /** Nothing fed in later changes an output already given. */
  lemma {:induction false} FilterIsCausal(num: seq<real>, den: seq<real>, xs: seq<real>, more: seq<real>)
    requires den != []
    ensures Filtered(num, den, xs + more)[..|xs|] == Filtered(num, den, xs)
    decreases |more|
  {
    if more == [] {
      assert xs + more == xs;
      assert Filtered(num, den, xs)[..|xs|] == Filtered(num, den, xs);
    } else {
      var init := more[..|more| - 1];
      FilterIsCausal(num, den, xs, init);
      assert (xs + more)[..|xs + more| - 1] == xs + init;
    }
  }

  function Sum(a: seq<real>, b: seq<real>): (r: seq<real>)
    requires |a| == |b|
    ensures |r| == |a|
  {
    seq(|a|, i requires 0 <= i < |a| => a[i] + b[i])
  }

  lemma PastOfSum(a: seq<real>, b: seq<real>, k: nat)
    requires |a| == |b|
    ensures Past(Sum(a, b), k) == Past(a, k) + Past(b, k)
  {
  }

  lemma {:induction false} ForwardOfSum(num: seq<real>, k: nat, a: seq<real>, b: seq<real>)
    requires k <= |num| && |a| == |b|
    ensures Forward(num, k, Sum(a, b)) == Forward(num, k, a) + Forward(num, k, b)
  {
    if k > 0 {
      ForwardOfSum(num, k - 1, a, b);
      PastOfSum(a, b, k - 1);
      Distribute(num[k - 1], Past(a, k - 1), Past(b, k - 1));
    }
  }

  lemma {:induction false} FeedbackOfSum(den: seq<real>, k: nat, a: seq<real>, b: seq<real>)
    requires 1 <= k <= |den| && |a| == |b|
    ensures Feedback(den, k, Sum(a, b)) == Feedback(den, k, a) + Feedback(den, k, b)
  {
    if k > 1 {
      FeedbackOfSum(den, k - 1, a, b);
      PastOfSum(a, b, k - 2);
      Distribute(den[k - 1], Past(a, k - 2), Past(b, k - 2));
    }
  }

  lemma Distribute(c: real, a: real, b: real)
    ensures c * (a + b) == c * a + c * b
  {
  }

  lemma Reciprocal(a: real, d: real)
    requires d != 0.0
    ensures a * (1.0 / d) == a / d
  {
  }

  lemma FilteredSnoc(num: seq<real>, den: seq<real>, xs: seq<real>, x: real)
    requires den != []
    ensures var ys := Filtered(num, den, xs);
            Filtered(num, den, xs + [x]) == ys + [Output(num, den, xs + [x], ys)]
  {
    assert (xs + [x])[..|xs|] == xs;
  }

  lemma Quotient(a: real, b: real, d: real)
    requires d != 0.0
    ensures (a + b) / d == a / d + b / d
  {
  }

  /** The filter answers a sum of two inputs with the sum of its answers. */
  lemma {:induction false} FilterSuperposes(num: seq<real>, den: seq<real>, a: seq<real>, b: seq<real>)
    requires den != [] && |a| == |b|
    ensures Filtered(num, den, Sum(a, b)) == Sum(Filtered(num, den, a), Filtered(num, den, b))
  {
    if a != [] {
      var k := |a| - 1;
      FilterSuperposes(num, den, a[..k], b[..k]);
      assert Sum(a, b)[..k] == Sum(a[..k], b[..k]);
      var ya, yb := Filtered(num, den, a[..k]), Filtered(num, den, b[..k]);
      OutputOfSum(num, den, a, b, ya, yb);
    }
  }

  lemma OutputOfSum(num: seq<real>, den: seq<real>, a: seq<real>, b: seq<real>, ya: seq<real>, yb: seq<real>)
    requires den != [] && |a| == |b| && |ya| == |yb|
    ensures Output(num, den, Sum(a, b), Sum(ya, yb)) == Output(num, den, a, ya) + Output(num, den, b, yb)
  {
    ForwardOfSum(num, |num|, a, b);
    FeedbackOfSum(den, |den|, ya, yb);
    hide Forward, Feedback;
    var d := if den[0] != 0.0 then den[0] else 1.0;
    Quotient(Forward(num, |num|, a) - Feedback(den, |den|, ya), Forward(num, |num|, b) - Feedback(den, |den|, yb), d);
  }

  class Iir {
    var num: seq<real>
    var den: seq<real>
    var inHist: array<real>
    var outHist: array<real>
    var inPos: nat
    var outPos: nat
    var acc: real
    ghost var xs: seq<real>

    /** The histories hold the newest inputs and the newest outputs of the filter. */
    ghost predicate Valid()
      reads this, inHist, outHist
    {
      && inHist != outHist && den != []
      && Holds(inHist[..], inPos, |num|, xs)
      && Holds(outHist[..], outPos, |den|, Filtered(num, den, xs))
    }

    /** The allocation: the histories hold `blockSize` more than their taps. */
    constructor (den: seq<real>, num: seq<real>, blockSize: nat)
      requires den != [] && num != [] && |den| + blockSize <= WORD / 2 && |num| + blockSize <= WORD / 2
      ensures Valid() && xs == [] && this.num == num && this.den == den
      ensures inHist.Length == |num| + blockSize && outHist.Length == |den| + blockSize
      ensures fresh(inHist) && fresh(outHist)
    {
      this.den, this.num := den, num;
      inHist := new real[|num| + blockSize];
      outHist := new real[|den| + blockSize];
      inPos, outPos := 0, 0;
      acc := 0.0;
      new;
      Reset();
    }

    /** Both histories zeroed and the cursors at the top of the slack. */
    method Reset()
      requires inHist != outHist && 1 <= |num| <= inHist.Length <= WORD / 2 && 1 <= |den| <= outHist.Length <= WORD / 2
      modifies this, inHist, outHist
      ensures Valid() && xs == [] && num == old(num) && den == old(den)
      ensures inHist == old(inHist) && outHist == old(outHist)
    {
      Clear(inHist);
      Clear(outHist);
      inPos := inHist.Length - |num|;
      outPos := outHist.Length - |den|;
      xs := [];
    }

    method Clear(hist: array<real>)
      modifies hist
      ensures forall i | 0 <= i < hist.Length :: hist[i] == 0.0
    {
      for i := 0 to hist.Length
        invariant forall j | 0 <= j < i :: hist[j] == 0.0
      {
        hist[i] := 0.0;
      }
    }

    method SumForward() returns (a: real)
      requires HoldsAll(inHist[..], inPos, |num|, xs)
      ensures a == Forward(num, |num|, xs)
    {
      a := 0.0;
      for i := 0 to |num|
        invariant a == Forward(num, i, xs)
      {
        assert inHist[..][inPos + i] == Past(xs, i);
        a := a + num[i] * inHist[inPos + i];
      }
    }

    method SumFeedback(start: real, ghost ys: seq<real>) returns (a: real)
      requires den != [] && Holds(outHist[..], outPos, |den|, ys)
      ensures a == start - Feedback(den, |den|, ys)
    {
      a := start;
      for i := 1 to |den|
        invariant a == start - Feedback(den, i, ys)
      {
        assert outHist[..][outPos + 1 + (i - 1)] == Past(ys, i - 1);
        a := a - den[i] * outHist[outPos + i];
      }
    }

    /** The first half of a step: the input stored and the two sums formed. */
    method Accumulate(x: real)
      requires Valid()
      modifies this, inHist
      ensures inHist == old(inHist) && outHist == old(outHist) && num == old(num) && den == old(den)
      ensures xs == old(xs) + [x] && inPos == old(inPos) && outPos == old(outPos)
      ensures HoldsAll(inHist[..], inPos, |num|, xs)
      ensures Holds(outHist[..], outPos, |den|, old(Filtered(num, den, xs)))
      ensures acc == Forward(num, |num|, xs) - Feedback(den, |den|, old(Filtered(num, den, xs)))
    {
      hide Holds, HoldsAll, Past, Forward, Feedback, Filtered;
      ghost var ys := Filtered(num, den, xs);
      StoreHolds(inHist[..], inPos, |num|, xs, x);
      InBounds(inHist[..], inPos, |num|, xs);
      ghost var output := outHist[..];
      inHist[inPos] := x;
      assert outHist[..] == output;
      xs := xs + [x];
      acc := SumForward();
      acc := SumFeedback(acc, ys);
    }

    /** One sample: the output is the difference equation's, whatever the block size. */
    method Process(x: real) returns (y: real)
      requires Valid()
      modifies this, inHist, outHist
      ensures Valid() && xs == old(xs) + [x] && num == old(num) && den == old(den)
      ensures inHist == old(inHist) && outHist == old(outHist)
      ensures Filtered(num, den, xs) == old(Filtered(num, den, xs)) + [y]
    {
      hide Holds, HoldsAll, Past, Forward, Feedback, Filtered;
      ghost var ys := Filtered(num, den, xs);
      FilteredSnoc(num, den, xs, x);
      Accumulate(x);
      if den[0] != 0.0 {
        acc := acc / den[0];
      }
      y := Emit(ys);
    }

    /** A block of samples, normalised by a reciprocal: the outputs that `Process` gives
        one at a time. */
    method ProcessBlock(input: seq<real>) returns (out: seq<real>)
      requires Valid()
      modifies this, inHist, outHist
      ensures Valid() && xs == old(xs) + input && num == old(num) && den == old(den)
      ensures inHist == old(inHist) && outHist == old(outHist)
      ensures Filtered(num, den, xs) == old(Filtered(num, den, xs)) + out
    {
      hide Holds, HoldsAll, Past, Forward, Feedback, Filtered;
      out := [];
      for i := 0 to |input|
        invariant Valid() && xs == old(xs) + input[..i] && num == old(num) && den == old(den)
        invariant inHist == old(inHist) && outHist == old(outHist)
        invariant Filtered(num, den, xs) == old(Filtered(num, den, xs)) + out
      {
        ghost var ys := Filtered(num, den, xs);
        FilteredSnoc(num, den, xs, input[i]);
        Accumulate(input[i]);
        var normalizer := 1.0;
        if den[0] != 0.0 {
          normalizer := 1.0 / den[0];
          Reciprocal(acc, den[0]);
        }
        acc := acc * normalizer;
        assert acc == Output(num, den, xs, ys);
        var y := Emit(ys);
        out := out + [y];
      }
    }

    /** The second half of a step: the output stored and both cursors moved. */
    method Emit(ghost ys: seq<real>) returns (y: real)
      requires inHist != outHist && den != []
      requires HoldsAll(inHist[..], inPos, |num|, xs) && Holds(outHist[..], outPos, |den|, ys)
      modifies this, inHist, outHist
      ensures inHist == old(inHist) && outHist == old(outHist) && num == old(num) && den == old(den) && xs == old(xs)
      ensures Holds(inHist[..], inPos, |num|, xs) && Holds(outHist[..], outPos, |den|, ys + [y])
      ensures y == old(acc)
    {
      hide Holds, HoldsAll, Past;
      StoreHolds(outHist[..], outPos, |den|, ys, acc);
      InBounds(outHist[..], outPos, |den|, ys);
      outHist[outPos] := acc;
      ghost var input := inHist[..];
      outPos := Advance(outHist, outPos, |den|, ys + [acc]);
      assert inHist[..] == input;
      ghost var output := outHist[..];
      inPos := Advance(inHist, inPos, |num|, xs);
      assert outHist[..] == output;
      y := acc;
    }
  }

  lemma InBounds(h: seq<real>, pos: nat, n: nat, s: seq<real>)
    requires Holds(h, pos, n, s)
    ensures pos < |h|
  {
  }
}
