/** One pass of the tester's main loop: a pass counter that lets a
    detection tick through on every 30th pass; on a tick, presence detection
    with reset/identify, then, while connected and on a button press, the
    counter bumped, sent with 0x15 and a value read back with 0x14, and
    finally the wait for the next video frame. The 29 passes between ticks
    spin without waiting, so a tick happens once per video frame.
    Video, console and controller libraries are outside the model: the
    buttons and everything the peripheral answers are inputs. */
module Link {
  import opened ByteOrder
  import opened SiBus
  import opened ComCsr
  import opened Joybus

  /** `u32` where only its value as a number matters. */
  newtype u32 = x: int | 0 <= x < 0x1_0000_0000

  /** The pass count at which a detection tick runs. */
  const TickPasses: u32 := 30
  /** The JOYBUS device id of a Game Boy Advance. */
  const GbaId: bv32 := 0x0004
  /** The channel every command of the loop uses. */
  const Port: bv32 := 0
  const MinusStep: bv32 := 1024
  const PlusStep: bv32 := 1

  datatype Option<T> = None | Some(value: T)

  /** The messages the loop prints when the link state changes. */
  datatype Event = Attached | Detached

  /** The loop's variables `vcount`, `connected` and `counter`, and the SI hardware. */
  datatype Machine = Machine(vcount: u32, connected: bool, counter: bv32, si: Si)

  /** What the outside world supplies to one pass: the first response
      word of reset/identify, the buttons pressed, the values the two `|=`
      read from SISR, and the first response words of the 0x15 and 0x14
      transfers. */
  datatype Inputs = Inputs(idWord: bv32, plus: bool, minus: bool,
                           sisr15: bv32, ackWord: bv32, sisr14: bv32, replyWord: bv32)

  /** The state after a pass, the register writes it made, the bytes each of
      its transfers put on the wire, the attach/detach message it printed,
      the value it printed as received, and whether it waited for the next
      video frame. */
  datatype Outcome = Outcome(m: Machine, writes: seq<RegWrite>, requests: seq<seq<bv8>>,
                             event: Option<Event>, received: Option<bv32>, vsync: bool)

  /** The loop's variables as `main` initialises them: no pass counted, no
      GBA, counter 0. */
  function Init(si: Si): Machine {
    Machine(0, false, 0, si)
  }

  /** The device id: the upper half of the first response word. */
  function JoybusId(w: bv32): bv32 {
    w >> 16
  }

  datatype Detection = Detection(connected: bool, si: Si, writes: seq<RegWrite>, sent: seq<bv8>, event: Option<Event>)

  /** Presence detection: a disconnected link issues reset and becomes
      connected exactly when the id is the GBA's; a connected link issues
      identify and becomes disconnected exactly when the id is not. */
  function Detect(connected: bool, si: Si, idWord: bv32): (r: Detection)
    requires Valid(si)
    ensures Valid(r.si) && r.si.buf[0] == idWord
    ensures !connected ==> (r.connected <==> JoybusId(idWord) == GbaId)
    ensures !connected ==> (r.event == Some(Attached) <==> r.connected) && r.event != Some(Detached)
    ensures connected ==> (!r.connected <==> JoybusId(idWord) != GbaId)
    ensures connected ==> (r.event == Some(Detached) <==> !r.connected) && r.event != Some(Attached)
    ensures |r.writes| == 2 && r.writes[0] == RegWrite(StatusIndex, SisrClearPattern)
    ensures r.writes[1].index == ComCsrIndex && WellFormed(r.writes[1].value)
    ensures Decode(r.writes[1].value) == Descriptor(Port, 3, 1)
    ensures r.sent == [if connected then 0x00 else 0xFF]
    ensures r.si.regs[ComCsrIndex] == r.writes[1].value & TStartClear && r.si.regs[StatusIndex] == SisrClearPattern
    ensures forall i :: 0 <= i < RegCount && i != ComCsrIndex && i != StatusIndex ==> r.si.regs[i] == si.regs[i]
    ensures forall i :: 1 <= i < ShortClear ==> r.si.buf[i] == 0
    ensures forall i :: ShortClear <= i < BufWords ==> r.si.buf[i] == si.buf[i]
  {
    if !connected then
      var setup := Reset(si, Port);
      var sent := WireBytes(setup.si.buf, 1);
      var after := Transfer(setup.si, idWord);
      var id := after.buf[0] >> 16;
      if id == GbaId then Detection(true, after, setup.writes, sent, Some(Attached))
      else Detection(false, after, setup.writes, sent, None)
    else
      var setup := Ping(si, Port);
      var sent := WireBytes(setup.si.buf, 1);
      var after := Transfer(setup.si, idWord);
      var id := after.buf[0] >> 16;
      if id != GbaId then Detection(false, after, setup.writes, sent, Some(Detached))
      else Detection(true, after, setup.writes, sent, None)
  }

  /** The call `send_15_cmd(0, c >> 24, c >> 16, c >> 8, c)` of the loop. */
  function SendCounter(si: Si, c: bv32, sisrRead: bv32): (r: Setup)
    requires Valid(si)
    ensures Valid(r.si)
    ensures WireBytes(r.si.buf, 5) == [WriteHeader, Byte(c, 0), Byte(c, 1), Byte(c, 2), Byte(c, 3)]
    ensures Byte(r.si.buf[0], 3) == WriteHeader && r.si.buf[1] & 0x00FF_FFFF == 0
  {
    var r := Send15(si, Port, ((c >> 24) & 0xFF) as bv8, ((c >> 16) & 0xFF) as bv8,
                    ((c >> 8) & 0xFF) as bv8, ((c >> 0) & 0xFF) as bv8, sisrRead);
    assert WireBytes(r.si.buf, 5)[0] == Byte(r.si.buf[0], 3);
    r
  }

  /** The receiving side's reading of the two payload words. */
  function Reassemble(buf0: bv32, buf1: bv32): bv32 {
    ((buf0 >> 16) & 0xFF) | (((buf0 >> 8) & 0xFF) << 8) | ((buf0 & 0xFF) << 16) | ((buf1 >> 24) << 24)
  }

  /** Two buffer words whose wire bytes are the header and the counter,
      least significant byte first, as `SendCounter` stores them, decode
      back to the counter. */
  lemma CounterPayloadRoundTrip(buf: seq<bv32>, c: bv32)
    requires |buf| >= 2
    requires WireBytes(buf, 5) == [WriteHeader, Byte(c, 0), Byte(c, 1), Byte(c, 2), Byte(c, 3)]
    ensures Reassemble(buf[0], buf[1]) == c
  {
    var wire := WireBytes(buf, 5);
    assert wire[1] == Byte(buf[0], 2) && wire[2] == Byte(buf[0], 1) && wire[3] == Byte(buf[0], 0);
    assert wire[4] == Byte(buf[1], 3);
    ReassembleBytes(buf[0], buf[1], c);
  }

  /** The words the loop's write command stores decode back to the counter. */
  lemma SendCounterRoundTrip(si: Si, c: bv32, sisrRead: bv32)
    requires Valid(si)
    ensures Reassemble(SendCounter(si, c, sisrRead).si.buf[0], SendCounter(si, c, sisrRead).si.buf[1]) == c
  {
    CounterPayloadRoundTrip(SendCounter(si, c, sisrRead).si.buf, c);
  }

  /** The reassembly inverts the loop's byte split: word 0 carries bytes 0..2
      of the counter below the header, word 1 carries byte 3 on top. */
  lemma ReassembleBytes(w0: bv32, w1: bv32, c: bv32)
    requires Byte(w0, 2) == Byte(c, 0) && Byte(w0, 1) == Byte(c, 1) && Byte(w0, 0) == Byte(c, 2)
    requires Byte(w1, 3) == Byte(c, 3)
    ensures Reassemble(w0, w1) == c
  {
    ByteExtensionality(Reassemble(w0, w1), c);
  }

  /** A counter of 1024 goes on the wire as 0x15 00 04 00 00: least
      significant byte first. */
  lemma CounterWireExample(si: Si, sisrRead: bv32)
    requires Valid(si)
    ensures WireBytes(SendCounter(si, 1024, sisrRead).si.buf, 5) == [0x15, 0x00, 0x04, 0x00, 0x00]
  {
  }

  datatype Exchange = Exchange(counter: bv32, si: Si, writes: seq<RegWrite>, sent: seq<seq<bv8>>, received: Option<bv32>)

  /** `send_15_cmd` with the counter c followed by `send_14_cmd`: the
      write carries 0x15 and c least significant byte first, the read
      carries 0x14, each is preceded by the SISR error clear and armed for
      (1, 5) and (4, 1) respectively, and the value received is the
      byte-reversed first word of the read's reply. */
  function Transact(si: Si, c: bv32, inp: Inputs): (r: Exchange)
    requires Valid(si)
    ensures Valid(r.si) && r.counter == c
    ensures r.sent == [[WriteHeader, Byte(c, 0), Byte(c, 1), Byte(c, 2), Byte(c, 3)], [0x14]]
    ensures r.received == Some(SwapBytes(inp.replyWord))
    ensures r.si.buf[0] == inp.replyWord && forall i :: 1 <= i < BufWords ==> r.si.buf[i] == 0
    ensures r.si.regs[StatusIndex] == SisrClearPattern && r.si.regs[ComCsrIndex] & 1 == 0
    ensures forall i :: 0 <= i < RegCount && i != ComCsrIndex && i != StatusIndex ==> r.si.regs[i] == si.regs[i]
  {
    var write := SendCounter(si, c, inp.sisr15);
    var afterWrite := Transfer(write.si, inp.ackWord);
    var read := Send14(afterWrite, Port, inp.sisr14);
    var afterRead := Transfer(read.si, inp.replyWord);
    var sent := [WireBytes(write.si.buf, 5), WireBytes(read.si.buf, 1)];
    Exchange(c, afterRead, write.writes + read.writes, sent, Some(SwapBytes(afterRead.buf[0])))
  }

  /** The counter step of a button press: minus adds 1024, otherwise plus
      adds 1, both modulo 2^32; the result is below the old value exactly
      when the addition wrapped. */
  function Bump(counter: bv32, minus: bool): (r: bv32)
    ensures minus ==> r - counter == MinusStep
    ensures !minus ==> r - counter == PlusStep
    ensures r < counter <==> counter > 0xFFFF_FFFF - (if minus then MinusStep else PlusStep)
  {
    if minus then counter + MinusStep else counter + PlusStep
  }

  /** The button handling: only while connected and with a button pressed,
      the counter is bumped and the new value is transacted; otherwise
      nothing happens. */
  function HandleButtons(connected: bool, counter: bv32, si: Si, inp: Inputs): (r: Exchange)
    requires Valid(si)
    ensures Valid(r.si)
    ensures !(connected && (inp.plus || inp.minus)) ==>
              r.counter == counter && r.si == si && r.writes == [] && r.sent == [] && r.received == None
    ensures connected && (inp.plus || inp.minus) ==>
              && r.counter == Bump(counter, inp.minus)
              && r.sent == [[WriteHeader, Byte(r.counter, 0), Byte(r.counter, 1), Byte(r.counter, 2), Byte(r.counter, 3)], [0x14]]
              && r.received == Some(SwapBytes(inp.replyWord))
              && r.si.buf[0] == inp.replyWord
  {
    if connected && (inp.minus || inp.plus) then
      Transact(si, Bump(counter, inp.minus), inp)
    else
      Exchange(counter, si, [], [], None)
  }

  /** If the peripheral answers the read with the four payload bytes of the
      write, in the order it received them, the loop reads back the counter
      it sent. */
  lemma EchoReadsCounter(si: Si, c: bv32, sisrRead: bv32)
    requires Valid(si)
    ensures var p := WireBytes(SendCounter(si, c, sisrRead).si.buf, 5);
            SwapBytes(Word(p[1], p[2], p[3], p[4])) == c
  {
    var p := WireBytes(SendCounter(si, c, sisrRead).si.buf, 5);
    SwapReadsLittleEndian(p[1], p[2], p[3], p[4]);
    WordOfBytes(c);
  }

  /** The register writes of a transaction, in order: the write command's
      SISR error clear, SISR clear pattern and a (1, 5) control word, then
      the same three for the read command (see `TransactReadWrites`). */
  lemma TransactWrites(si: Si, c: bv32, inp: Inputs)
    requires Valid(si)
    ensures var r := Transact(si, c, inp);
            && |r.writes| == 6
            && r.writes[0] == RegWrite(StatusIndex, inp.sisr15 | ErrorClearMask(Port))
            && r.writes[1] == RegWrite(StatusIndex, SisrClearPattern)
            && r.writes[2].index == ComCsrIndex && WellFormed(r.writes[2].value)
            && Decode(r.writes[2].value) == Descriptor(Port, 1, 5)
  {
    var write := SendCounter(si, c, inp.sisr15);
    var read := Send14(Transfer(write.si, inp.ackWord), Port, inp.sisr14);
    var r := Transact(si, c, inp);
    assert r.writes == write.writes + read.writes;
    assert Port & 0x3 == Port;
    assert r.writes[2] == write.writes[2];
  }

  /** The last three writes of a transaction are the read command's: SISR
      error clear, SISR clear pattern and a (4, 1) control word. */
  lemma TransactReadWrites(si: Si, c: bv32, inp: Inputs)
    requires Valid(si)
    ensures var r := Transact(si, c, inp);
            && |r.writes| == 6
            && r.writes[3] == RegWrite(StatusIndex, inp.sisr14 | ErrorClearMask(Port))
            && r.writes[4] == RegWrite(StatusIndex, SisrClearPattern)
            && r.writes[5].index == ComCsrIndex && WellFormed(r.writes[5].value)
            && Decode(r.writes[5].value) == Descriptor(Port, 4, 1)
  {
    var write := SendCounter(si, c, inp.sisr15);
    var read := Send14(Transfer(write.si, inp.ackWord), Port, inp.sisr14);
    var r := Transact(si, c, inp);
    assert r.writes == write.writes + read.writes;
    assert Port & 0x3 == Port;
    assert r.writes[5] == read.writes[2];
  }

  /** A transaction sends its counter, and a reply that echoes the payload
      bytes in the order they were sent is received as that counter. */
  lemma TransactEcho(si: Si, c: bv32, inp: Inputs)
    requires Valid(si)
    ensures var r := Transact(si, c, inp);
            inp.replyWord == Word(r.sent[0][1], r.sent[0][2], r.sent[0][3], r.sent[0][4]) ==> r.received == Some(c)
  {
    var r := Transact(si, c, inp);
    SwapReadsLittleEndian(Byte(c, 0), Byte(c, 1), Byte(c, 2), Byte(c, 3));
    WordOfBytes(c);
  }

  /** One pass of `while (1)`: count the pass; on the 30th, run a tick. */
  function Pass(m: Machine, inp: Inputs): (r: Outcome)
    requires Valid(m.si)
    ensures Valid(r.m.si)
    ensures m.vcount < TickPasses ==> r.m.vcount < TickPasses
    ensures m.vcount < TickPasses ==> (r.vsync <==> m.vcount == TickPasses - 1)
    ensures r.vsync <==> r.writes != []
    ensures r.vsync <==> r.requests != []
    ensures !r.vsync ==> r.m.connected == m.connected && r.m.counter == m.counter
                         && r.m.si == m.si && r.event == None && r.received == None
    ensures r.m.counter != m.counter ==> r.m.connected
  {
    var vcount := ((m.vcount as int + 1) % 0x1_0000_0000) as u32;
    if vcount < TickPasses then
      Outcome(m.(vcount := vcount), [], [], None, None, false)
    else
      Tick(m, inp)
  }

  /** The body of `if (vcount >= 30)`: detection, then the button handling,
      then the count restarts and the loop waits for the next video frame. */
  function Tick(m: Machine, inp: Inputs): (r: Outcome)
    requires Valid(m.si)
    ensures Valid(r.m.si) && r.m.vcount == 0 && r.vsync
    ensures |r.writes| >= 2 && |r.requests| >= 1
    ensures r.m.counter != m.counter ==> r.m.connected
  {
    var d := Detect(m.connected, m.si, inp.idWord);
    var x := HandleButtons(d.connected, m.counter, d.si, inp);
    assert |d.writes + x.writes| >= |d.writes| == 2;
    Outcome(Machine(0, d.connected, x.counter, x.si), d.writes + x.writes, [d.sent] + x.sent,
            d.event, x.received, true)
  }

  /** On a tick while disconnected: connected, with the attach message,
      exactly when reset returns the GBA's id. */
  lemma TickWhileDisconnected(m: Machine, inp: Inputs)
    requires Valid(m.si) && m.vcount == TickPasses - 1 && !m.connected
    ensures Pass(m, inp).m.connected <==> JoybusId(inp.idWord) == GbaId
    ensures Pass(m, inp).event == Some(Attached) <==> JoybusId(inp.idWord) == GbaId
    ensures Pass(m, inp).event != Some(Detached)
  {
  }

  /** On a tick while connected: disconnected, with the detach message,
      exactly when identify returns another id. */
  lemma TickWhileConnected(m: Machine, inp: Inputs)
    requires Valid(m.si) && m.vcount == TickPasses - 1 && m.connected
    ensures !Pass(m, inp).m.connected <==> JoybusId(inp.idWord) != GbaId
    ensures Pass(m, inp).event == Some(Detached) <==> JoybusId(inp.idWord) != GbaId
    ensures Pass(m, inp).event != Some(Attached)
  {
  }

  /** The exchange on a tick: whatever the link state before, the link is
      connected after detection exactly when the id is the GBA's; the
      exchange happens exactly when it is and a button was pressed, and the
      value received is the byte-reversed reply; without it the counter
      keeps its value. */
  lemma TickExchange(m: Machine, inp: Inputs)
    requires Valid(m.si) && m.vcount == TickPasses - 1
    ensures var r := Pass(m, inp);
            && (r.m.connected <==> JoybusId(inp.idWord) == GbaId)
            && (r.received != None <==> r.m.connected && (inp.plus || inp.minus))
            && (r.received == None ==> r.m.counter == m.counter)
            && (r.received != None ==> r.received == Some(SwapBytes(inp.replyWord)))
  {
    PassTick(m, inp);
  }

  /** The counter on a tick with an exchange (the GBA answered and a button
      was pressed) is bumped once. */
  lemma TickCounter(m: Machine, inp: Inputs)
    requires Valid(m.si) && m.vcount == TickPasses - 1
    requires JoybusId(inp.idWord) == GbaId && (inp.plus || inp.minus)
    ensures Pass(m, inp).m.counter == Bump(m.counter, inp.minus)
  {
    PassTick(m, inp);
  }

  /** Unfolding helper: a tick is detection followed by the button handling. */
  lemma PassTick(m: Machine, inp: Inputs)
    requires Valid(m.si) && m.vcount == TickPasses - 1
    ensures var d := Detect(m.connected, m.si, inp.idWord);
            var x := HandleButtons(d.connected, m.counter, d.si, inp);
            Pass(m, inp) == Outcome(Machine(0, d.connected, x.counter, x.si), d.writes + x.writes,
                                    [d.sent] + x.sent, d.event, x.received, true)
  {
  }

  /** The register writes of a tick, in order: detection's, which arm a
      (3, 1) transfer, then the transaction's if a value is exchanged. */
  lemma TickWrites(m: Machine, inp: Inputs)
    requires Valid(m.si) && m.vcount == TickPasses - 1
    ensures var d := Detect(m.connected, m.si, inp.idWord);
            var r := Pass(m, inp);
            && r.writes[..2] == d.writes
            && r.writes[1].index == ComCsrIndex && Decode(r.writes[1].value) == Descriptor(Port, 3, 1)
            && (r.received == None ==> |r.writes| == 2)
            && (r.received != None ==> r.writes[2..] == Transact(d.si, r.m.counter, inp).writes)
  {
    PassTick(m, inp);
  }

  /** The bytes a tick puts on the wire first: 0xFF (reset) from a
      disconnected link or 0x00 (identify) from a connected one, and nothing
      more when no value is exchanged. */
  lemma TickRequests(m: Machine, inp: Inputs)
    requires Valid(m.si) && m.vcount == TickPasses - 1
    ensures var r := Pass(m, inp);
            && r.requests[0] == [if m.connected then 0x00 else 0xFF]
            && (r.received == None ==> |r.requests| == 1)
  {
    PassTick(m, inp);
  }

  /** When a value is exchanged on a tick, two more requests follow
      detection's: 0x15 with the new counter least significant byte first,
      then 0x14. */
  lemma TickPayload(m: Machine, inp: Inputs)
    requires Valid(m.si) && m.vcount == TickPasses - 1
    ensures var r := Pass(m, inp);
            r.received != None ==>
              r.requests[1..] == [[WriteHeader, Byte(r.m.counter, 0), Byte(r.m.counter, 1), Byte(r.m.counter, 2), Byte(r.m.counter, 3)], [0x14]]
  {
    PassTick(m, inp);
  }

  /** A reply on a tick that echoes the four counter bytes in the order they
      were sent is received as the new counter. */
  lemma TickEcho(m: Machine, inp: Inputs)
    requires Valid(m.si) && m.vcount == TickPasses - 1
    ensures var r := Pass(m, inp);
            r.received != None && inp.replyWord == Word(Byte(r.m.counter, 0), Byte(r.m.counter, 1), Byte(r.m.counter, 2), Byte(r.m.counter, 3))
            ==> r.received == Some(r.m.counter)
  {
    PassTick(m, inp);
    var r := Pass(m, inp);
    SwapReadsLittleEndian(Byte(r.m.counter, 0), Byte(r.m.counter, 1), Byte(r.m.counter, 2), Byte(r.m.counter, 3));
    WordOfBytes(r.m.counter);
  }

  /** The loop run over a sequence of passes. */
  function Run(m: Machine, ins: seq<Inputs>): (r: Machine)
    requires Valid(m.si)
    ensures Valid(r.si)
    ensures m.vcount < TickPasses ==> r.vcount < TickPasses
    decreases |ins|
  {
    if ins == [] then m else Run(Pass(m, ins[0]).m, ins[1..])
  }

  /** Before the count reaches 30, passes only count. */
  lemma {:induction false} IdlePasses(m: Machine, ins: seq<Inputs>)
    requires Valid(m.si) && m.vcount as int + |ins| < TickPasses as int
    ensures Run(m, ins) == m.(vcount := (m.vcount as int + |ins|) as u32)
    decreases |ins|
  {
    if ins != [] {
      IdlePasses(Pass(m, ins[0]).m, ins[1..]);
    }
  }

  /** From the start of a count, the first 29 passes do nothing but count
      and the 30th runs detection, waits for a frame and restarts the count. */
  lemma DetectionEveryThirtyPasses(m: Machine, ins: seq<Inputs>, inp: Inputs)
    requires Valid(m.si) && m.vcount == 0 && |ins| == 29
    ensures Run(m, ins) == m.(vcount := 29)
    ensures Pass(Run(m, ins), inp).vsync
    ensures Pass(Run(m, ins), inp).m.vcount == 0
  {
    IdlePasses(m, ins);
  }

  /** From the start of `main`, the first tick, on the 30th pass, issues
      reset and leaves the link connected exactly when the id is the GBA's. */
  lemma FirstTick(si: Si, ins: seq<Inputs>, inp: Inputs)
    requires Valid(si) && |ins| == 29
    ensures Run(Init(si), ins) == Init(si).(vcount := 29)
    ensures Pass(Run(Init(si), ins), inp).requests[0] == [0xFF]
    ensures Pass(Run(Init(si), ins), inp).m.connected <==> JoybusId(inp.idWord) == GbaId
  {
    IdlePasses(Init(si), ins);
    TickRequests(Init(si).(vcount := 29), inp);
    TickExchange(Init(si).(vcount := 29), inp);
  }
}
