/** The buffer and register setup of the four JOYBUS commands the tester
    issues: reset (0xFF), identify (0x00), read (0x14) and write (0x15).
    Each command clears a prefix of the SI buffer, stores its command words,
    possibly stores into SISR, and arms a transfer through SICOMCSR. The
    transfer itself is `SiBus.Transfer`. */
module Joybus {
  import opened ByteOrder
  import opened SiBus
  import opened ComCsr

  const ResetWord: bv32 := 0xFF00_0000
  const PingWord: bv32 := 0x0000_0000
  const ReadWord: bv32 := 0x1400_0000
  const WriteHeader: bv8 := 0x15

  /** Words cleared by reset/identify and by read/write respectively. */
  const ShortClear: nat := 0x20
  const LongClear: nat := 0x80

  /** The state after setting a command up, and the register writes it made. */
  datatype Setup = Setup(si: Si, writes: seq<RegWrite>)

  lemma {:induction false} ApplyWritesAppend(regs: seq<bv32>, a: seq<RegWrite>, b: seq<RegWrite>)
    requires InRange(a, |regs|) && InRange(b, |regs|)
    ensures InRange(a + b, |regs|)
    ensures ApplyWrites(regs, a + b) == ApplyWrites(ApplyWrites(regs, a), b)
    decreases |a|
  {
    if a != [] {
      assert (a + b)[1..] == a[1..] + b;
      ApplyWritesAppend(regs[a[0].index := a[0].value], a[1..], b);
    } else {
      assert a + b == b;
    }
  }

  /** The common shape of the four commands: zero `clear` words, store
      `words` at the front, perform the `pre` register writes, then the
      writes made while building the control word, then the store of the
      control word into SICOMCSR. */
  function Issue(s: Si, clear: nat, words: seq<bv32>, pre: seq<RegWrite>, armed: Armed): (r: Setup)
    requires Valid(s) && |words| <= clear <= BufWords
    requires InRange(pre, RegCount) && InRange(armed.effects, RegCount)
    ensures Valid(r.si)
    ensures r.writes == pre + armed.effects + [RegWrite(ComCsrIndex, armed.word)]
    ensures forall i :: 0 <= i < |words| ==> r.si.buf[i] == words[i]
    ensures forall i :: |words| <= i < clear ==> r.si.buf[i] == 0
    ensures forall i :: clear <= i < BufWords ==> r.si.buf[i] == s.buf[i]
    ensures r.si.regs == ApplyWrites(ApplyWrites(ApplyWrites(s.regs, pre), armed.effects),
                                     [RegWrite(ComCsrIndex, armed.word)])
  {
    var cleared := ClearPrefix(s.buf, clear);
    var buf := words + cleared[|words|..];
    var writes := pre + armed.effects + [RegWrite(ComCsrIndex, armed.word)];
    ApplyWritesAppend(s.regs, pre, armed.effects);
    ApplyWritesAppend(s.regs, pre + armed.effects, [RegWrite(ComCsrIndex, armed.word)]);
    Setup(Si(ApplyWrites(s.regs, writes), buf), writes)
  }

  /** After a command set up from `s`: its writes are `pre`, then the SISR
      clear pattern, then a well-formed control word for (channel, inLen,
      outLen) into SICOMCSR; the registers end up holding the control word
      and the clear pattern, and no other register changes. */
  ghost predicate Arms(s: Si, r: Setup, channel: bv32, inLen: bv32, outLen: bv32, pre: seq<RegWrite>)
    requires Valid(s) && Valid(r.si)
  {
    && |r.writes| == |pre| + 2
    && r.writes[..|pre|] == pre
    && r.writes[|pre|] == RegWrite(StatusIndex, SisrClearPattern)
    && r.writes[|pre| + 1].index == ComCsrIndex
    && WellFormed(r.writes[|pre| + 1].value)
    && Decode(r.writes[|pre| + 1].value) == Descriptor(channel & 0x3, inLen, outLen)
    && r.si.regs[ComCsrIndex] == r.writes[|pre| + 1].value
    && r.si.regs[StatusIndex] == SisrClearPattern
    && forall i :: 0 <= i < RegCount && i != ComCsrIndex && i != StatusIndex ==> r.si.regs[i] == s.regs[i]
  }

  /** Issue then establishes `Arms` for the control word generated from the
      channel and the lengths. */
  lemma IssueArms(s: Si, clear: nat, words: seq<bv32>, pre: seq<RegWrite>,
                  channel: bv32, inLen: bv32, outLen: bv32)
    requires Valid(s) && |words| <= clear <= BufWords && InRange(pre, RegCount)
    requires forall j :: 0 <= j < |pre| ==> pre[j].index == StatusIndex
    requires inLen < 0x80 && outLen < 0x80
    ensures Arms(s, Issue(s, clear, words, pre, GenerateComCsr(channel, inLen, outLen)),
                 channel, inLen, outLen, pre)
  {
    var g := GenerateComCsr(channel, inLen, outLen);
    var r := Issue(s, clear, words, pre, g);
    var r1 := ApplyWrites(s.regs, pre);
    var r2 := ApplyWrites(r1, g.effects);
    assert r.writes[..|pre|] == pre;
    forall i | 0 <= i < RegCount && i != ComCsrIndex && i != StatusIndex
      ensures r.si.regs[i] == s.regs[i]
    {
      assert Untouched(pre, i);
      assert Untouched(g.effects, i);
      assert Untouched([RegWrite(ComCsrIndex, g.word)], i);
    }
    assert Untouched([RegWrite(ComCsrIndex, g.word)], StatusIndex);
  }

  /** `0x0F << ((3 - channel) * 8)`: the low nibble of byte 3 - channel, the
      error bits of that channel in SISR, and nothing else. */
  function ErrorClearMask(channel: bv32): (m: bv32)
    requires channel <= 3
    ensures Byte(m, 3 - channel as nat) == 0x0F
    ensures forall k: nat :: k < 4 && k != 3 - channel as nat ==> Byte(m, k) == 0
  {
    0x0F << ((3 - channel) * 8)
  }

  /** `reset`: words 1..0x1F zero, word 0 holds 0xFF, words from 0x20 on
      untouched; the transfer sends one byte (0xFF) and expects three. */
  function Reset(s: Si, channel: bv32): (r: Setup)
    requires Valid(s)
    ensures Valid(r.si)
    ensures r.si.buf[0] == ResetWord
    ensures forall i :: 1 <= i < ShortClear ==> r.si.buf[i] == 0
    ensures forall i :: ShortClear <= i < BufWords ==> r.si.buf[i] == s.buf[i]
    ensures WireBytes(r.si.buf, 1) == [0xFF]
    ensures Arms(s, r, channel, 3, 1, [])
  {
    IssueArms(s, ShortClear, [ResetWord], [], channel, 3, 1);
    Issue(s, ShortClear, [ResetWord], [], GenerateComCsr(channel, 3, 1))
  }

  /** `ping_ID`: as reset, but the command byte is 0x00. */
  function Ping(s: Si, channel: bv32): (r: Setup)
    requires Valid(s)
    ensures Valid(r.si)
    ensures r.si.buf[0] == PingWord
    ensures forall i :: 1 <= i < ShortClear ==> r.si.buf[i] == 0
    ensures forall i :: ShortClear <= i < BufWords ==> r.si.buf[i] == s.buf[i]
    ensures WireBytes(r.si.buf, 1) == [0x00]
    ensures Arms(s, r, channel, 3, 1, [])
  {
    IssueArms(s, ShortClear, [PingWord], [], channel, 3, 1);
    Issue(s, ShortClear, [PingWord], [], GenerateComCsr(channel, 3, 1))
  }

  /** `send_14_cmd`: the whole 0x80-word buffer cleared but for word 0 = 0x14;
      SISR first receives the value read from it with the channel's error
      bits set, then the clear pattern; the transfer is armed to send one
      byte and receive four. `sisrRead` is the value the `|=` reads from the
      volatile register. */
  function Send14(s: Si, channel: bv32, sisrRead: bv32): (r: Setup)
    requires Valid(s) && channel <= 3
    ensures Valid(r.si)
    ensures r.si.buf[0] == ReadWord
    ensures forall i :: 1 <= i < LongClear ==> r.si.buf[i] == 0
    ensures WireBytes(r.si.buf, 1) == [0x14]
    ensures Arms(s, r, channel, 4, 1, [RegWrite(StatusIndex, sisrRead | ErrorClearMask(channel))])
  {
    var pre := [RegWrite(StatusIndex, sisrRead | ErrorClearMask(channel))];
    IssueArms(s, LongClear, [ReadWord], pre, channel, 4, 1);
    Issue(s, LongClear, [ReadWord], pre, GenerateComCsr(channel, 4, 1))
  }

  /** The two buffer words `send_15_cmd` stores, from its byte arguments. */
  function WritePayload(msB: bv8, byte2: bv8, byte3: bv8, lsB: bv8): (w: seq<bv32>)
    ensures |w| == 2
  {
    [ (WriteHeader as bv32 << 24) | (lsB as bv32 << 16) | (byte3 as bv32 << 8) | (byte2 as bv32 << 0),
      msB as bv32 << 24 ]
  }

  /** `send_15_cmd`: the buffer cleared, then the header 0x15 followed on the
      wire by the bytes lsB, byte3, byte2, msB, in that order; SISR written as
      for the read command; the transfer sends five bytes and expects one. */
  function Send15(s: Si, channel: bv32, msB: bv8, byte2: bv8, byte3: bv8, lsB: bv8, sisrRead: bv32): (r: Setup)
    requires Valid(s) && channel <= 3
    ensures Valid(r.si)
    ensures WireBytes(r.si.buf, 5) == [WriteHeader, lsB, byte3, byte2, msB]
    ensures r.si.buf[1] & 0x00FF_FFFF == 0
    ensures forall i :: 2 <= i < LongClear ==> r.si.buf[i] == 0
    ensures Arms(s, r, channel, 1, 5, [RegWrite(StatusIndex, sisrRead | ErrorClearMask(channel))])
  {
    var pre := [RegWrite(StatusIndex, sisrRead | ErrorClearMask(channel))];
    var words := WritePayload(msB, byte2, byte3, lsB);
    IssueArms(s, LongClear, words, pre, channel, 1, 5);
    var r := Issue(s, LongClear, words, pre, GenerateComCsr(channel, 1, 5));
    PayloadWire(r.si.buf, msB, byte2, byte3, lsB);
    r
  }

  /** A buffer starting with the payload words sends the header and then
      lsB, byte3, byte2, msB. */
  lemma PayloadWire(buf: seq<bv32>, msB: bv8, byte2: bv8, byte3: bv8, lsB: bv8)
    requires |buf| >= 2 && buf[..2] == WritePayload(msB, byte2, byte3, lsB)
    ensures WireBytes(buf, 5) == [WriteHeader, lsB, byte3, byte2, msB]
    ensures buf[1] & 0x00FF_FFFF == 0
  {
    assert buf[0] == buf[..2][0] && buf[1] == buf[..2][1];
  }

  /** Two valid states agreeing on every register and buffer word are equal. */
  lemma SiExtensionality(x: Si, y: Si)
    requires Valid(x) && Valid(y)
    requires forall i :: 0 <= i < RegCount ==> x.regs[i] == y.regs[i]
    requires forall i :: 0 <= i < BufWords ==> x.buf[i] == y.buf[i]
    ensures x == y
  {
  }

  /** Setting a command up twice in a row leaves the same state as setting it
      up once: the peripheral sees the same request each time. */
  lemma ResetIdempotent(s: Si, channel: bv32)
    requires Valid(s)
    ensures Reset(Reset(s, channel).si, channel) == Reset(s, channel)
  {
    var r1 := Reset(s, channel);
    var r2 := Reset(r1.si, channel);
    assert r1.writes == r2.writes;
    SiExtensionality(r1.si, r2.si);
  }

  lemma PingIdempotent(s: Si, channel: bv32)
    requires Valid(s)
    ensures Ping(Ping(s, channel).si, channel) == Ping(s, channel)
  {
    var r1 := Ping(s, channel);
    var r2 := Ping(r1.si, channel);
    assert r1.writes == r2.writes;
    SiExtensionality(r1.si, r2.si);
  }

  /** For the read and write commands the resulting state is the same
      whatever value the `|=` read from SISR, and repeating the setup does
      not change it. */
  lemma Send14IgnoresSisr(s: Si, channel: bv32, a: bv32, b: bv32)
    requires Valid(s) && channel <= 3
    ensures Send14(s, channel, b).si == Send14(s, channel, a).si
  {
    var r1 := Send14(s, channel, a);
    var r3 := Send14(s, channel, b);
    assert r1.writes[2] == r3.writes[2];
    SiExtensionality(r1.si, r3.si);
  }

  lemma Send14Idempotent(s: Si, channel: bv32, a: bv32, b: bv32)
    requires Valid(s) && channel <= 3
    ensures Send14(Send14(s, channel, a).si, channel, b).si == Send14(s, channel, a).si
  {
    var r1 := Send14(s, channel, a);
    var r2 := Send14(r1.si, channel, b);
    assert r1.writes[2] == r2.writes[2];
    SiExtensionality(r1.si, r2.si);
  }

  lemma Send15IgnoresSisr(s: Si, channel: bv32, msB: bv8, byte2: bv8, byte3: bv8, lsB: bv8, a: bv32, b: bv32)
    requires Valid(s) && channel <= 3
    ensures Send15(s, channel, msB, byte2, byte3, lsB, b).si == Send15(s, channel, msB, byte2, byte3, lsB, a).si
  {
    var r1 := Send15(s, channel, msB, byte2, byte3, lsB, a);
    var r3 := Send15(s, channel, msB, byte2, byte3, lsB, b);
    assert r1.writes[2] == r3.writes[2];
    assert r1.si.buf[0] == r3.si.buf[0] && r1.si.buf[1] == r3.si.buf[1];
    SiExtensionality(r1.si, r3.si);
  }

  lemma Send15Idempotent(s: Si, channel: bv32, msB: bv8, byte2: bv8, byte3: bv8, lsB: bv8, a: bv32, b: bv32)
    requires Valid(s) && channel <= 3
    ensures Send15(Send15(s, channel, msB, byte2, byte3, lsB, a).si, channel, msB, byte2, byte3, lsB, b).si
            == Send15(s, channel, msB, byte2, byte3, lsB, a).si
  {
    var r1 := Send15(s, channel, msB, byte2, byte3, lsB, a);
    var r2 := Send15(r1.si, channel, msB, byte2, byte3, lsB, b);
    assert r1.writes[2] == r2.writes[2];
    assert r1.si.buf[0] == r2.si.buf[0] && r1.si.buf[1] == r2.si.buf[1];
    SiExtensionality(r1.si, r2.si);
  }
}
