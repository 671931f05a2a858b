/** The serial-interface (SI) hardware as the tester sees it: a register
    window and a transfer buffer of 32-bit words, plus the ordered log of the
    register writes a command performs. The addresses and volatile access of
    the program are abstracted into these sequences. */
module SiBus {
  import opened ByteOrder

  /** Words in the register window that precedes the buffer (0x80 bytes). */
  const RegCount: nat := 0x20
  /** Words of buffer the commands address (the 0x14/0x15 commands clear 0x80). */
  const BufWords: nat := 0x80
  /** SICOMCSR, the communication control/status register. */
  const ComCsrIndex: nat := 13
  /** SISR, the status register holding the per-channel error bits. */
  const StatusIndex: nat := 14

  /** One store to a register: `si_reg[index] = value`. */
  datatype RegWrite = RegWrite(index: nat, value: bv32)

  /** Registers and buffer together. */
  datatype Si = Si(regs: seq<bv32>, buf: seq<bv32>)

  predicate Valid(s: Si) {
    |s.regs| == RegCount && |s.buf| == BufWords
  }

  predicate InRange(log: seq<RegWrite>, n: nat) {
    forall j :: 0 <= j < |log| ==> log[j].index < n
  }

  /** No write of the log touches register i. */
  predicate Untouched(log: seq<RegWrite>, i: nat) {
    forall j :: 0 <= j < |log| ==> log[j].index != i
  }

  /** The register file after performing the writes of the log in order:
      a register nobody writes keeps its value, and the last write wins. */
  function ApplyWrites(regs: seq<bv32>, log: seq<RegWrite>): (r: seq<bv32>)
    requires InRange(log, |regs|)
    ensures |r| == |regs|
    ensures forall i :: 0 <= i < |regs| && Untouched(log, i) ==> r[i] == regs[i]
    ensures |log| > 0 ==> r[log[|log| - 1].index] == log[|log| - 1].value
    decreases |log|
  {
    if log == [] then regs
    else ApplyWrites(regs[log[0].index := log[0].value], log[1..])
  }

  /** The buffer with its first n words zeroed: the `for` loops that clear
      `si_buf` before each command. */
  function ClearPrefix(buf: seq<bv32>, n: nat): (r: seq<bv32>)
    requires n <= |buf|
    ensures |r| == |buf|
    ensures forall i :: 0 <= i < n ==> r[i] == 0
    ensures forall i :: n <= i < |buf| ==> r[i] == buf[i]
  {
    if n == 0 then buf else ClearPrefix(buf, n - 1)[n - 1 := 0]
  }

  /** The first n bytes of the buffer in the order they go on the wire:
      words are stored big-endian, so the most significant byte of word 0
      is sent first. */
  function WireBytes(buf: seq<bv32>, n: nat): (r: seq<bv8>)
    requires n <= 4 * |buf|
    ensures |r| == n
  {
    seq(n, j requires 0 <= j < n => Byte(buf[j / 4], 3 - j % 4))
  }

  /** Every complete group of four wire bytes packs back into its buffer word. */
  lemma WireBytesRoundTrip(buf: seq<bv32>, n: nat)
    requires n <= 4 * |buf|
    ensures var r := WireBytes(buf, n);
            forall i :: 0 <= i && 4 * i + 3 < n ==> Word(r[4 * i], r[4 * i + 1], r[4 * i + 2], r[4 * i + 3]) == buf[i]
  {
    forall i | 0 <= i && 4 * i + 3 < n
      ensures var r := WireBytes(buf, n);
              Word(r[4 * i], r[4 * i + 1], r[4 * i + 2], r[4 * i + 3]) == buf[i]
    {
      WireGroup(buf, n, i);
    }
  }

  /** Wire bytes 4i .. 4i + 3 are the bytes of word i, most significant first. */
  lemma WireGroup(buf: seq<bv32>, n: nat, i: nat)
    requires n <= 4 * |buf| && 4 * i + 3 < n
    ensures var r := WireBytes(buf, n);
            Word(r[4 * i], r[4 * i + 1], r[4 * i + 2], r[4 * i + 3]) == buf[i]
  {
    var r := WireBytes(buf, n);
    WordIndex(i, 0);
    WordIndex(i, 1);
    WordIndex(i, 2);
    WordIndex(i, 3);
    assert r[4 * i] == Byte(buf[i], 3) && r[4 * i + 1] == Byte(buf[i], 2);
    assert r[4 * i + 2] == Byte(buf[i], 1) && r[4 * i + 3] == Byte(buf[i], 0);
    WordOfBytes(buf[i]);
  }

  /** Wire byte 4i + k belongs to word i, at position k from the top. */
  lemma WordIndex(i: nat, k: nat)
    requires k < 4
    ensures (4 * i + k) / 4 == i && (4 * i + k) % 4 == k
  {
  }

  const TStartClear: bv32 := 0xFFFF_FFFE

  /** One hardware transfer, abstracted. The peripheral's answer is an input:
      its first four bytes land in buffer word 0, and the controller clears
      the TSTART bit of SICOMCSR, which is what the busy-wait after each
      command waits for. */
  function Transfer(s: Si, response: bv32): (r: Si)
    requires Valid(s)
    ensures Valid(r)
    ensures r.buf[0] == response
    ensures forall i :: 1 <= i < BufWords ==> r.buf[i] == s.buf[i]
    ensures r.regs[ComCsrIndex] & 1 == 0
    ensures r.regs[ComCsrIndex] >> 1 == s.regs[ComCsrIndex] >> 1
    ensures forall i :: 0 <= i < RegCount && i != ComCsrIndex ==> r.regs[i] == s.regs[i]
  {
    Si(s.regs[ComCsrIndex := s.regs[ComCsrIndex] & TStartClear], s.buf[0 := response])
  }
}
