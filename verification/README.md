# JOYBUS link tester — Dafny model

A model of the protocol side of a GameCube/Wii link tester that talks to a
Game Boy Advance over the serial interface (SI) using JOYBUS commands. The
model covers:

- the byte-order helpers `swap_bytes` and `swap_bytes_half`
  (`byte_order.dfy`, module `ByteOrder`);
- the SI register window and transfer buffer as sequences of `bv32`, with the
  ordered log of register stores a command performs, the buffer-clearing
  loops, the order bytes go on the wire, and one hardware transfer as an
  abstract step whose response is an input (`si_bus.dfy`, module `SiBus`);
- `generate_com_csr`, the SICOMCSR control word that starts a transfer,
  together with a decoder of its bit fields (`com_csr.dfy`, module `ComCsr`);
- the setup of the four JOYBUS commands `reset` (0xFF), `ping_ID` (0x00),
  `send_14_cmd` (read, 0x14) and `send_15_cmd` (write, 0x15): each is a
  function from the register file and buffer to the new register file and
  buffer plus the register writes in program order (`joybus.dfy`, module
  `Joybus`);
- one pass of the main loop: the pass counter `vcount` that lets a
  detection tick through on every 30th pass, the `connected` flag driven by
  the device id in the upper half of the first response word, the
  `counter` that a button press bumps, sends with 0x15 and follows with a
  0x14 read whose reply is byte-reversed, and the wait for the next video
  frame that ends each tick (`link.dfy`, module `Link`).

Everything the outside world supplies — the buttons pressed, every response
word of the peripheral, and the values the `|=` statements read from the
volatile SISR register — is a parameter (`Link.Inputs`).

`send_15_cmd` names its byte parameters `msB, byte2, byte3, lsB`, most
significant first, and `main` passes the counter's bytes in that order
(NINJA.c:249-250). The function, however, stores `lsB` right after the 0x15
header, then `byte3`, `byte2` and `msB` (NINJA.c:145-146), so the counter
goes on the wire least significant byte first: a counter of 1024 is sent as
`15 00 04 00 00`. The model follows the code (`Link.SendCounter`,
`Link.CounterWireExample`). The read path is little-endian too: the
byte-reversed reply word is the little-endian value of the bytes received
(`ByteOrder.SwapReadsLittleEndian`), so a peripheral that echoes the four
payload bytes makes the loop read back the counter it sent
(`Link.TransactEcho`, `Link.TickEcho`).

The wait for the next video frame (NINJA.c:260) is inside `if (vcount >= 30)`
(NINJA.c:208-261): the 29 passes between ticks do not wait at all, so a
detection tick runs once per video frame, not once every 30 frames.
`vcount` counts loop passes, and `Link.Outcome.vsync` records whether a
pass waited.

## Model

| member | source | states |
|---|---|---|
| ByteOrder.SwapBytes | source/NINJA.c:14-23 | byte k of the result is byte 3 - k of the input, for every k |
| ByteOrder.SwapBytesInvolutive | source/NINJA.c:14-23 | reversing the bytes twice gives back the word |
| ByteOrder.SwapBytesHalf | source/NINJA.c:25-32 | the upper half of the result is the lower half of the input and vice versa |
| ByteOrder.SwapBytesHalfInvolutive | source/NINJA.c:25-32 | swapping the halves twice gives back the word |
| ByteOrder.SwapReadsLittleEndian | source/NINJA.c:254 | reversing a word received big-endian yields the little-endian value of its bytes in arrival order |
| ByteOrder.WordOfBytes | source/NINJA.c:249-250 | splitting a word into its four bytes and packing them again gives it back |
| SiBus.ClearPrefix | source/NINJA.c:76-78 | the first n buffer words become zero and every later word keeps its value |
| SiBus.ApplyWrites | source/NINJA.c:67 | after a sequence of register stores, an unwritten register keeps its value and the last store's register holds its value |
| SiBus.WireBytesRoundTrip | source/NINJA.c:145-146 | buffer words go on the wire most significant byte first: every complete group of four wire bytes packs back into the buffer word it came from |
| SiBus.Transfer | source/NINJA.c:84-90 | a completed transfer puts the response in buffer word 0, leaves the rest of the buffer and every other register alone, and clears only TSTART (bit 0) of SICOMCSR, the bit the busy-waits poll |
| ComCsr.GenerateComCsr | source/NINJA.c:36-70 | the word has bits 0, 7, 24 set, bit 6 and bits 3-5, 15, 23, 27-31 clear, channel & 3 at bits 25-26 and again at bits 1-2, out_len & 0x7F at bits 16-22, in_len & 0x7F at bits 8-14; the only register written is SISR, with 0x20202020 |
| ComCsr.WellFormedIffEncoded | source/NINJA.c:39-65 | a word is an encoder output exactly when it has that fixed shape, and then re-encoding its decoded fields gives it back |
| ComCsr.SameWordIffSameMasked | source/NINJA.c:39-41 | two calls give the same word if and only if their channels agree in 2 bits and their lengths in 7 bits |
| ComCsr.MaskingExample | source/NINJA.c:39-41 | channel 7 with lengths 200 encodes exactly as channel 3 with lengths 72 |
| Joybus.ApplyWritesAppend | source/NINJA.c:125-130 | performing two lists of register stores one after the other is performing their concatenation |
| Joybus.Issue | source/NINJA.c:115-135 | a command's setup zeroes its cleared range, stores its words at the front, leaves later words alone, and makes its register stores in program order |
| Joybus.IssueArms | source/NINJA.c:125-130 | the setup ends with SISR := 0x20202020 then SICOMCSR := a well-formed word for (channel & 3, in, out), and no register other than SISR and SICOMCSR changes |
| Joybus.ErrorClearMask | source/NINJA.c:125 | for channel <= 3 the mask is the low nibble of byte 3 - channel and nothing else |
| Joybus.Reset | source/NINJA.c:74-91 | word 0 is 0xFF000000, words 1..0x1F zero, words from 0x20 on unchanged, 0xFF is the one byte sent, and the transfer is armed for lengths (3, 1) after the SISR clear |
| Joybus.Ping | source/NINJA.c:95-112 | word 0 is 0, words 1..0x1F zero, words from 0x20 on unchanged, 0x00 is the one byte sent, armed for (3, 1) |
| Joybus.Send14 | source/NINJA.c:115-135 | word 0 is 0x14000000, words 1..0x7F zero, SISR first gets the value read OR the channel's error mask, then 0x20202020, then SICOMCSR is armed for (4, 1) |
| Joybus.Send15 | source/NINJA.c:138-159 | the five bytes sent are 0x15, lsB, byte3, byte2, msB; word 1's low 24 bits and words 2..0x7F are zero; SISR as for the read; armed for (1, 5) |
| Joybus.PayloadWire | source/NINJA.c:145-146 | a buffer starting with the two payload words sends 0x15, lsB, byte3, byte2, msB |
| Joybus.ResetIdempotent | source/NINJA.c:74-91 | setting reset up twice gives the same state and writes as once |
| Joybus.PingIdempotent | source/NINJA.c:95-112 | setting identify up twice gives the same state and writes as once, so the peripheral sees the same request each time |
| Joybus.Send14IgnoresSisr | source/NINJA.c:124-130 | the state after the read setup does not depend on the value read from SISR, because the clear pattern overwrites it |
| Joybus.Send14Idempotent | source/NINJA.c:115-135 | repeating the read setup does not change the state |
| Joybus.Send15IgnoresSisr | source/NINJA.c:148-154 | the state after the write setup does not depend on the value read from SISR |
| Joybus.Send15Idempotent | source/NINJA.c:138-159 | repeating the write setup does not change the state |
| Link.Detect | source/NINJA.c:211-229 | while disconnected, reset (one byte 0xFF) is sent and the link becomes connected, with the attach message, iff the id (response >> 16) is 4; while connected, identify (one byte 0x00) is sent and the link drops, with the detach message, iff the id is not 4; its register stores are SISR := 0x20202020 then SICOMCSR := a well-formed control word (TSTART and the enable bits set) for channel 0 with lengths (3, 1); afterwards the response is in word 0, words 1..0x1F are zero, later words are unchanged, SISR holds 0x20202020, SICOMCSR holds the control word with TSTART cleared, and no other register changes |
| Link.SendCounter | source/NINJA.c:249-250 | the bytes sent are 0x15 then the counter's bytes least significant first; the header is the top byte of word 0 and word 1's low 24 bits are zero |
| Link.CounterPayloadRoundTrip | source/NINJA.c:145-146 | two buffer words whose wire bytes are 0x15 and the counter least significant first reassemble to the counter |
| Link.SendCounterRoundTrip | source/NINJA.c:249-250 | the words the loop's write command stores reassemble to the counter |
| Link.CounterWireExample | source/NINJA.c:145-146 | a counter of 1024 is sent as 15 00 04 00 00 |
| Link.Transact | source/NINJA.c:248-254 | the write sends 0x15 and the counter least significant byte first, the read sends 0x14, and the value received is the byte-reversed first word of the read's reply; afterwards word 0 holds the reply and every other buffer word is zero, SISR holds 0x20202020, TSTART is clear, and no other register changes |
| Link.TransactWrites | source/NINJA.c:148-154 | a transaction makes six register stores; the first three are SISR := value read OR error mask, SISR := 0x20202020, SICOMCSR := a well-formed control word (TSTART set) for channel 0 with (1, 5) |
| Link.TransactReadWrites | source/NINJA.c:124-130 | the last three stores of a transaction are the read command's: SISR := value read OR error mask, SISR := 0x20202020, SICOMCSR := a well-formed control word (TSTART set) for (4, 1) |
| Link.TransactEcho | source/NINJA.c:249-254 | a reply that echoes the four payload bytes in the order they were sent is received as the counter that was sent |
| Link.EchoReadsCounter | source/NINJA.c:249-254 | reversing the word formed by the four payload bytes of the write command gives back the counter |
| Link.Bump | source/NINJA.c:242-245 | minus adds 1024 and plus adds 1 modulo 2^32; the result is below the old counter exactly when the addition overflowed |
| Link.HandleButtons | source/NINJA.c:239-256 | without a connection or without plus or minus, nothing is sent, nothing received, no register is written and counter and hardware keep their values; otherwise the counter is bumped, the requests are 0x15 with the new counter least significant byte first and then 0x14, the value received is the byte-reversed reply, and the reply stays in buffer word 0 |
| Link.Pass | source/NINJA.c:205-262 | vcount stays below 30; a pass waits for the next frame, and makes register stores and requests, exactly when vcount was 29; a pass that does not changes nothing but vcount; the counter changes only on a connected link |
| Link.Tick | source/NINJA.c:208-261 | a tick restarts the count at 0, sends at least detection's request and makes at least its two register stores, and waits for the next frame |
| Link.TickWhileDisconnected | source/NINJA.c:212-220 | on a tick from disconnected, the link is connected, with the attach message, exactly when the id is 4, and no detach message is printed |
| Link.TickWhileConnected | source/NINJA.c:221-229 | on a tick from connected, the link drops, with the detach message, exactly when the id is not 4 |
| Link.TickExchange | source/NINJA.c:211-256 | whatever the state before, the link is connected after detection exactly when the id is 4; a value is received exactly when the link is connected after detection and a button was pressed; it is the byte-reversed reply; otherwise the counter keeps its value |
| Link.TickCounter | source/NINJA.c:239-245 | on a tick where the id is 4 and a button is pressed the counter is bumped once (by 1024 for minus, otherwise 1) |
| Link.TickWrites | source/NINJA.c:211-256 | a tick's register stores are detection's two (SISR := 0x20202020, then a well-formed SICOMCSR word for (3, 1)), followed by the transaction's when a value is exchanged and by nothing otherwise |
| Link.TickRequests | source/NINJA.c:212-229 | a tick's first request is 0xFF from a disconnected link and 0x00 from a connected one, and it is the only one when no value is exchanged |
| Link.TickPayload | source/NINJA.c:247-253 | when a value is exchanged the tick's further requests are 0x15 with the new counter least significant byte first, then 0x14 |
| Link.TickEcho | source/NINJA.c:248-255 | on a tick, a reply echoing the four bytes of the new counter in sending order is received as that counter |
| Link.Run | source/NINJA.c:205-262 | running the loop keeps vcount below 30 and the hardware state well formed |
| Link.IdlePasses | source/NINJA.c:206-208 | while vcount plus the number of passes stays below 30, the passes only count |
| Link.DetectionEveryThirtyPasses | source/NINJA.c:206-209 | from vcount 0, 29 passes only count and the 30th runs a tick, waits for the frame and resets vcount to 0 |
| Link.FirstTick | source/NINJA.c:199-220 | from `Link.Init`, the state `main` starts the loop in (vcount 0, disconnected, counter 0), the first 29 passes only count, and the 30th sends reset and leaves the link connected exactly when the id is 4 |

## Left out

- Video, console, controller-library and FAT initialisation and every `printf`: library calls without protocol logic. The attach and detach messages and the printed received value are kept as `Link.Outcome.event` and `Link.Outcome.received`, and the frame wait as `Link.Outcome.vsync`.
- The busy-wait loops on bit 0 of SICOMCSR: hardware timing. A transfer is `SiBus.Transfer`, one step that completes; a peripheral that never answers (the code then hangs) is not modelled.
- SiBus.Transfer: the peripheral's answer is modelled as the whole of buffer word 0; how many bytes the hardware actually stores and any status it sets elsewhere are not modelled, because the loop only reads word 0.
- Memory-mapped addresses and `volatile`: the register window is a sequence of 0x20 words, the buffer one of 0x80 words, and every value a `|=` reads is an input.
- The controller polling (`WPAD_ScanPads`, `WPAD_ButtonsDown`): the plus and minus buttons are boolean inputs.
- Joybus.Send14, Joybus.Send15: require channel <= 3, because for most larger channels the wrapped shift count `(3 - channel) * 8` is 32 or more, which C leaves undefined (a few, such as 0x20000000, wrap back to a small shift); the loop only uses channel 0.
- Joybus.Send15: `msB << 24` shifts a promoted `int` into its sign bit when msB >= 0x80, which C leaves undefined; the model takes the bit pattern every compiler for this target produces.
- The read and write commands clear 0x80 words (512 bytes) from the start of the buffer, more than the 128-byte SI buffer; the model follows the code and does not model what the extra stores hit.
- The loop variable `vcount` is modelled as a number below 2^32 with the increment wrapping explicitly; `counter` and all register and buffer words are `bv32`, whose arithmetic wraps by construction.
- A bounded poll with a timeout error, a checked "not connected" error and a check of the transfer error bits before a reply is trusted would harden the tester, but none is in the code, so none is modelled.
