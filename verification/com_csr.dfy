/** The SICOMCSR control word that starts a transfer (`generate_com_csr`),
    with a decoder for its fields so that the encoding can be stated as a
    round trip. */
module ComCsr {
  import opened SiBus

  /** The value `generate_com_csr` stores into SISR before returning. */
  const SisrClearPattern: bv32 := 0x2020_2020

  /** Bits the encoder always sets: channel enable (24), command enable (7), TSTART (0). */
  const AlwaysSet: bv32 := 0x0100_0081
  /** Bits the encoder always leaves clear: 27..31, 23, 15, callback enable (6), 3..5. */
  const AlwaysClear: bv32 := 0xF880_8078

  /** The inputs of one transfer: channel, input length and output length in bytes. */
  datatype Descriptor = Descriptor(channel: bv32, inLen: bv32, outLen: bv32)

  /** What the encoder keeps of a descriptor: 2 bits of channel, 7 bits of each length. */
  function Masked(d: Descriptor): Descriptor {
    Descriptor(d.channel & 0x3, d.inLen & 0x7F, d.outLen & 0x7F)
  }

  function ChannelField(w: bv32): bv32 { (w >> 25) & 0x3 }
  function MirrorField(w: bv32): bv32 { (w >> 1) & 0x3 }
  function OutLenField(w: bv32): bv32 { (w >> 16) & 0x7F }
  function InLenField(w: bv32): bv32 { (w >> 8) & 0x7F }

  function Decode(w: bv32): Descriptor {
    Descriptor(ChannelField(w), InLenField(w), OutLenField(w))
  }

  /** The shape every control word the encoder produces has. */
  predicate WellFormed(w: bv32) {
    && w & AlwaysSet == AlwaysSet
    && w & AlwaysClear == 0
    && MirrorField(w) == ChannelField(w)
  }

  /** The control word together with the register writes made while building it. */
  datatype Armed = Armed(word: bv32, effects: seq<RegWrite>)

  /** The control word for already-masked fields. */
  function ControlWord(channel: bv32, inLen: bv32, outLen: bv32): bv32 {
    (channel << 25) | (1 << 24) | (outLen << 16) | (inLen << 8) | (1 << 7) | (channel << 1) | (0 << 6) | 1
  }

  /** A control word built from masked fields has the fixed bits right and
      carries the channel twice. */
  lemma ControlWordWellFormed(channel: bv32, inLen: bv32, outLen: bv32)
    requires channel <= 3 && inLen <= 0x7F && outLen <= 0x7F
    ensures WellFormed(ControlWord(channel, inLen, outLen))
  {
  }

  /** ... and each field decodes to the value it was built from. */
  lemma ControlWordDecodes(channel: bv32, inLen: bv32, outLen: bv32)
    requires channel <= 3 && inLen <= 0x7F && outLen <= 0x7F
    ensures Decode(ControlWord(channel, inLen, outLen)) == Descriptor(channel, inLen, outLen)
  {
    var w := ControlWord(channel, inLen, outLen);
    assert ChannelField(w) == channel;
    assert InLenField(w) == inLen;
    assert OutLenField(w) == outLen;
  }

  /** `generate_com_csr`: the word carries the masked channel at bits 25..26 and
      again at bits 1..2, the masked output length at bits 16..22 and the
      masked input length at bits 8..14; the only register it writes is SISR. */
  function GenerateComCsr(channel: bv32, inLen: bv32, outLen: bv32): (g: Armed)
    ensures WellFormed(g.word)
    ensures Decode(g.word) == Masked(Descriptor(channel, inLen, outLen))
    ensures |g.effects| == 1 && g.effects[0].index == StatusIndex
    ensures g.effects[0].value == SisrClearPattern
  {
    var inLen := inLen & 0x7F;
    var outLen := outLen & 0x7F;
    var channel := channel & 0x3;
    ControlWordWellFormed(channel, inLen, outLen);
    ControlWordDecodes(channel, inLen, outLen);
    Armed(ControlWord(channel, inLen, outLen), [RegWrite(StatusIndex, SisrClearPattern)])
  }

  /** A word is an encoder output exactly when it is well formed; then
      re-encoding its decoded fields gives it back. */
  lemma WellFormedIffEncoded(w: bv32)
    ensures WellFormed(w) <==> GenerateComCsr(ChannelField(w), InLenField(w), OutLenField(w)).word == w
  {
    var e := GenerateComCsr(ChannelField(w), InLenField(w), OutLenField(w)).word;
    if WellFormed(w) {
      assert Decode(e) == Decode(w);
      assert e & AlwaysSet == w & AlwaysSet;
      assert e & AlwaysClear == w & AlwaysClear;
    }
  }

  /** Two calls give the same word if and only if they agree on the masked
      inputs: the bits above the masks are ignored, and nothing else is. */
  lemma SameWordIffSameMasked(c1: bv32, i1: bv32, o1: bv32, c2: bv32, i2: bv32, o2: bv32)
    ensures GenerateComCsr(c1, i1, o1).word == GenerateComCsr(c2, i2, o2).word
            <==> Masked(Descriptor(c1, i1, o1)) == Masked(Descriptor(c2, i2, o2))
  {
    var w1 := GenerateComCsr(c1, i1, o1).word;
    var w2 := GenerateComCsr(c2, i2, o2).word;
    if Masked(Descriptor(c1, i1, o1)) == Masked(Descriptor(c2, i2, o2)) {
      WellFormedIffEncoded(w1);
      WellFormedIffEncoded(w2);
    }
  }

  /** Channel 7 with lengths 200 encodes like channel 3 with lengths 72. */
  lemma MaskingExample()
    ensures GenerateComCsr(7, 200, 200).word == GenerateComCsr(3, 72, 72).word
  {
    SameWordIffSameMasked(7, 200, 200, 3, 72, 72);
  }
}
