/** `faxvmi_byte_reverse`: octets turned end for end in place, and what that does to
    the check sequence. */
module OctetReverse {
  import opened Bits
  import opened Fcs
  import JdCrc

  function ReversedOctet(w: nat): nat {
    Value(Reverse(OctetBits(w)))
  }

  function ReversedOctets(words: seq<nat>): (r: seq<nat>)
    ensures |r| == |words|
    ensures forall i | 0 <= i < |words| :: r[i] == ReversedOctet(words[i])
  {
    seq(|words|, i requires 0 <= i < |words| => ReversedOctet(words[i]))
  }

  lemma OctetBitsReversed(w: nat)
    ensures OctetBits(ReversedOctet(w)) == Reverse(OctetBits(w))
  {
    BitsOfValue(Reverse(OctetBits(w)));
  }

  /** Reversing twice keeps the octet and clears whatever was above it. */
  lemma ReverseTwice(w: nat)
    ensures ReversedOctet(ReversedOctet(w)) == w % 256
  {
    OctetBitsReversed(w);
    assert Reverse(Reverse(OctetBits(w))) == OctetBits(w);
    ValueOfOctet(w);
  }

  /** Eight shifts of `out` and `in`, as the inner loop does them. */
  method ReverseOctet(word: nat) returns (out: nat)
    ensures out == ReversedOctet(word)
  {
    var input := word;
    out := 0;
    var bit := 8;
    ghost var done: Bits := [];
    while bit != 0
      invariant 0 <= bit <= 8 && |done| == 8 - bit
      invariant out == Value(done)
      invariant Reverse(OctetBits(word)) == done + Reverse(BitsOf(input, bit))
    {
      MoveOne(done, input, bit);
      done := done + [input % 2 == 1];
      out := 2 * out;
      out := out + input % 2;
      input := input / 2;
      bit := bit - 1;
    }
    assert done == Reverse(OctetBits(word));
  }

  /** One bit from the low end of `input` to the low end of `done`. */
  lemma MoveOne(done: Bits, input: nat, bit: nat)
    requires bit > 0
    ensures done + Reverse(BitsOf(input, bit)) == done + [input % 2 == 1] + Reverse(BitsOf(input / 2, bit - 1))
    ensures Value(done + [input % 2 == 1]) == 2 * Value(done) + input % 2
  {
    var r, s := Reverse(BitsOf(input, bit)), Reverse(BitsOf(input / 2, bit - 1));
    assert r == [input % 2 == 1] + s;
    assert (done + [input % 2 == 1])[..|done|] == done;
  }

  /** `faxvmi_byte_reverse`: the first `count` elements, in place. */
  method ByteReverse(buf: array<nat>, count: int)
    requires Trips(count) <= buf.Length
    modifies buf
    ensures forall j | 0 <= j < buf.Length ::
              buf[j] == if j < Trips(count) then ReversedOctet(old(buf[j])) else old(buf[j])
  {
    var n := Trips(count);
    var i := 0;
    while i != n
      invariant 0 <= i <= n
      invariant forall j | 0 <= j < buf.Length ::
                  buf[j] == if j < i then ReversedOctet(old(buf[j])) else old(buf[j])
    {
      var out := ReverseOctet(buf[i]);
      buf[i] := out;
      i := i + 1;
    }
  }

  /** The bits of octets sent least significant first. */
  function LsbFirst(words: seq<nat>): (b: Bits)
    ensures |b| == 8 * |words|
  {
    if words == [] then [] else Reverse(OctetBits(words[0])) + LsbFirst(words[1..])
  }

  lemma {:induction false} ReversedFrameBits(words: seq<nat>)
    ensures FrameBits(ReversedOctets(words)) == LsbFirst(words)
  {
    if words != [] {
      OctetBitsReversed(words[0]);
      assert ReversedOctets(words)[1..] == ReversedOctets(words[1..]);
      ReversedFrameBits(words[1..]);
    }
  }

  /** The fax check sequence of the reversed octets is the complement of the serial
      CRC's cells fed the original octets least significant bit first. */
  lemma SerialCrcIsFaxFcs(words: seq<nat>, cells: seq<int>)
    requires JdCrc.Mirrors(cells, Run(Ones(16), LsbFirst(words)))
    ensures JdCrc.Mirrors(cells, Not(Fcs16(ReversedOctets(words))))
  {
    ReversedFrameBits(words);
    assert Not(Not(Run(Ones(16), LsbFirst(words)))) == Run(Ones(16), LsbFirst(words));
  }
}
