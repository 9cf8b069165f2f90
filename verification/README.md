# Cosa core library: a Dafny model of the hardware abstraction core

This project models the device-independent logic at the centre of the
Cosa object-oriented platform for Arduino (as shipped in the UECIDE
cores) and of the Raspberry Pi core's GPIO and software PWM, and proves
properties of that model with Dafny. Hardware never appears: register
writes, bus transfers, pin writes and events are collected as traces;
times and pin readings are parameters. Machine integers whose width the
modelled files declare are modelled with that width, and wrap-around is
made explicit where it can occur. The exceptions are listed under
"## Left out": the IR receiver's partial code and samples (their
declarations are in IR.hh, which is not part of this model; the event
value and the keymap words are 16 bits), the Rotary dial's value type T,
and indices and counts that the code keeps below small bounds, which are
`nat` with those bounds stated.

The modules follow the source files:

- `TWI` (twi.dfy): the AVR TWI (I2C) engine. Bus ownership with
  `begin`/`end`, request building over the scatter/gather vector, and the
  interrupt handler as a step function from a bus status to the next
  engine state plus register writes and events. Whole master writes,
  master reads, slave receptions and slave transmissions are proved to
  move exactly the bytes requested. Bus terms follow the NXP I2C-bus
  specification UM10204.
- `UsiTwi` (usi_twi.dfy): the USI (ATtiny) TWI driver's address packing
  and its buffer cursor (`set_buf`, `available`, `put`, `get`, `end`).
- `IOBuffer` (iobuffer.dfy): the ring buffer of SIZE bytes (one slot kept
  free), with FIFO behaviour proved against the sequence of its contents.
- `BitSet` (bitset.dfy): the bit set over N indices, with each operation
  proved against the mathematical set of its members.
- `RC4` (rc4.dfy): the key schedule of `restart`, proved to produce a
  permutation of 0 .. 255.
- `VirtualWireCodec` (vw_codec.dfy): the 4-to-6 bit symbol table, the
  preamble and `decode4`.
- `HD44780`, `HD44780Mjkdz`, `HD44780Sr3w`, `HD44780Erm1602`
  (hd44780*.dfy): the HD44780 LCD driver's register mirrors and command
  encodings, and three adapters: an I2C port expander (MJKDZ), a
  three-wire shift register (SR3W) and a serial display module in 8-bit
  mode (ERM1602-5). Each adapter's byte or pin stream is proved against a
  model of what the display receives.
- `VLCD` (vlcd.dfy): the virtual LCD over TWI. It covers the slave's
  request parser, command framing with retry, and the cursor rules of
  `putchar`.
- `Canvas`, `CanvasScript` (canvas.dfy, canvas_script.dfy): colours,
  shade and blend, and the drawing primitives as the device calls they
  make. Bresenham's `draw_line` is proved to stay within half a pixel of
  the ideal line. The display-script interpreter `run` is proved against
  an assembler for scripts.
- `OffScreen` (offscreen.dfy): the off-screen 1-bit bitmap canvas.
- `Rotary` (rotary.dfy): the plain and the accelerated dial moved by
  encoder turn events.
- `PinChange` (pcint.dfy): pin change interrupt dispatch over the
  instance table.
- `IRReceiver` (ir.dfy): the IR receiver's edge timing, code assembly and
  key lookup.
- `Touch` (touch.dfy): the capacitive touch sensor's sampling and
  debounce machine.
- `PiGpio`, `PiPwm` (gpio.dfy, pwm.dfy): Raspberry Pi function select,
  digital read and write, `shiftIn`/`shiftOut`, and the software PWM
  phase scheduler.
- `Common` (common.dfy): Option, bytes and small lemmas the other modules
  share.

Where a contract could not be stated for the code as written because
the code is evidently wrong, both the as-written and the corrected
behaviour are modelled; see "## Findings".

## Model

| member | source | states |
|---|---|---|
| RC4.FillIdentity | cores/Cosa/api/Cosa/Cipher/RC4.cpp:31-32 | whatever the state held before, afterwards entry i is i for all 256 entries |
| RC4.Mix | cores/Cosa/api/Cosa/Cipher/RC4.cpp:38-44 | the swap loop computes MixFrom, the loop written as recursion (j accumulates state[i] + key[i % len] modulo 256, entries i and j exchanged for i = 0 .. 255), and the result is a permutation of the initial state |
| RC4.Restart | cores/Cosa/api/Cosa/Cipher/RC4.cpp:28-45 | for a nonempty key, x and y are 0 and the state is the key's schedule, a permutation of 0 .. 255 that does not depend on the prior state |
| RC4.SwapPermutes | cores/Cosa/api/Cosa/Cipher/RC4.cpp:41-43 | the tmp swap of two entries keeps the multiset of entries |
| RC4.MixPermutes | cores/Cosa/api/Cosa/Cipher/RC4.cpp:39-44 | the mixing loop, from any step, keeps the multiset of entries |
| RC4.ScheduleIsPermutation | cores/Cosa/api/Cosa/Cipher/RC4.cpp:31-44 | the state restart produces is always a permutation of 0 .. 255 |
| RC4.MixSameKeyBytes | cores/Cosa/api/Cosa/Cipher/RC4.cpp:40 | two keys that give the same byte key[i % len] at every step mix the state identically: only the bytes read matter, not the length |
| RC4.RepeatedKey | cores/Cosa/api/Cosa/Cipher/RC4.cpp:28-45 | restarting with key ++ key gives the same state as restarting with key |
| VirtualWireCodec.SymbolsBalanced | cores/Cosa/api/Cosa/Wireless/Driver/VWI/Codec/VirtualWireCodec.cpp:24-28 | each of the 16 symbols is a six-bit value with exactly three 1-bits (DC balanced) |
| VirtualWireCodec.SymbolsDistinct | cores/Cosa/api/Cosa/Wireless/Driver/VWI/Codec/VirtualWireCodec.cpp:24-28 | the 16 symbols are pairwise distinct, so nibble-to-symbol is invertible |
| VirtualWireCodec.PreambleBalanced | cores/Cosa/api/Cosa/Wireless/Driver/VWI/Codec/VirtualWireCodec.cpp:30-33 | the eight preamble symbols are balanced six-bit values and the start symbol 0x38 is not a data symbol |
| VirtualWireCodec.Search | cores/Cosa/api/Cosa/Wireless/Driver/VWI/Codec/VirtualWireCodec.cpp:40-43 | the search result is below 16, and a nonzero result is an index at or after the start whose symbol matches |
| VirtualWireCodec.Decode4 | cores/Cosa/api/Cosa/Wireless/Driver/VWI/Codec/VirtualWireCodec.cpp:35-44 | decode4 always returns a nibble below 16 |
| VirtualWireCodec.SearchFinds | cores/Cosa/api/Cosa/Wireless/Driver/VWI/Codec/VirtualWireCodec.cpp:40-43 | when some symbol from the start index on matches, the loop returns an index whose symbol matches; when none does it returns 0 |
| VirtualWireCodec.DecodeSymbol | cores/Cosa/api/Cosa/Wireless/Driver/VWI/Codec/VirtualWireCodec.cpp:24-44 | round trip: decode4(symbols[n]) == n for every nibble n |
| VirtualWireCodec.MaskKeepsSix | cores/Cosa/api/Cosa/Wireless/Driver/VWI/Codec/VirtualWireCodec.cpp:38 | masking with SYMBOL_MASK leaves a six-bit value unchanged |
| VirtualWireCodec.DecodeIgnoresHighBits | cores/Cosa/api/Cosa/Wireless/Driver/VWI/Codec/VirtualWireCodec.cpp:38 | two received bytes that agree in their low six bits decode to the same nibble |
| VirtualWireCodec.DecodeUnknown | cores/Cosa/api/Cosa/Wireless/Driver/VWI/Codec/VirtualWireCodec.cpp:40-43 | a six-bit value outside the table decodes to 0, indistinguishable from the symbol 0x0d of nibble 0 |
| BitSet.SetMaxAsWritten | cores/Cosa/api/Cosa/BitSet.hh:42 | the written SET_MAX, (N + 4) / 8, is N / 8 rounded to the nearest whole byte count |
| BitSet.SetMax | cores/Cosa/api/Cosa/BitSet.hh:42 | the corrected SET_MAX is the least byte count whose bits hold N indices |
| BitSet.SetMaxCovers | cores/Cosa/api/Cosa/BitSet.hh:42-45 | with the corrected storage size ceil(N / 8), the byte of every index below N lies inside the storage and no byte is spare |
| BitSet.SetMaxAsWrittenShort | cores/Cosa/api/Cosa/BitSet.hh:42 | the written size (N + 4) / 8 is never larger than the corrected one, and is smaller by one exactly when N mod 8 is 1, 2 or 3 |
| BitSet.LastIndexOverflows | cores/Cosa/api/Cosa/BitSet.hh:42-45 | when N mod 8 is 1, 2 or 3 the byte of index N - 1 is one past the end of the written storage |
| BitSet.TenMembersOneByte | cores/Cosa/api/Cosa/BitSet.hh:42 | for N = 10 the written storage has 1 byte, but index 9 lives in byte 1 |
| BitSet.Members | cores/Cosa/api/Cosa/BitSet.hh:59-62 | members is N, zero exactly when the storage is empty |
| BitSet.Contains | cores/Cosa/api/Cosa/BitSet.hh:86-91 | an index reported as a member is below N; indexes at or above N are never members |
| BitSet.Empty | cores/Cosa/api/Cosa/BitSet.hh:51-70 | after the constructor or empty, no index is a member |
| BitSet.IsEmpty | cores/Cosa/api/Cosa/BitSet.hh:75-80 | the byte scan answers true exactly when no index is a member |
| BitSet.Add | cores/Cosa/api/Cosa/BitSet.hh:96-99 | += ix keeps N and the storage length |
| BitSet.AddMembers | cores/Cosa/api/Cosa/BitSet.hh:96-99 | after += ix the members are the old ones plus ix when ix < N; an index at or above N changes nothing |
| BitSet.Remove | cores/Cosa/api/Cosa/BitSet.hh:104-107 | -= ix keeps N and the storage length |
| BitSet.RemoveMembers | cores/Cosa/api/Cosa/BitSet.hh:104-107 | after -= ix the members are the old ones without ix; every other index keeps its membership |
| BitSet.AddIdempotent | cores/Cosa/api/Cosa/BitSet.hh:96-99 | adding the same index twice is adding it once |
| BitSet.Union | cores/Cosa/api/Cosa/BitSet.hh:124-129 | += rhs keeps N, and leaves the set unchanged when rhs has a different N |
| BitSet.UnionMembers | cores/Cosa/api/Cosa/BitSet.hh:124-129 | with equal N, the members after += rhs are exactly those of either set |
| BitSet.Difference | cores/Cosa/api/Cosa/BitSet.hh:135-140 | -= rhs keeps N, and leaves the set unchanged when rhs has a different N |
| BitSet.DifferenceMembers | cores/Cosa/api/Cosa/BitSet.hh:135-140 | with equal N, the members after -= rhs are those of the set that are not in rhs |
| BitSet.Assign | cores/Cosa/api/Cosa/BitSet.hh:113-118 | = rhs is ignored for a different N; with equal N the set afterwards has exactly the members of rhs |
| BitSet.Equal | cores/Cosa/api/Cosa/BitSet.hh:147-151 | == is false for a different N |
| BitSet.EqualIffSameMembers | cores/Cosa/api/Cosa/BitSet.hh:147-151 | == holds exactly when both sets have the same N and the same members |
| IOBuffer.Create | cores/Cosa/api/Cosa/IOBuffer.hh:52-57 | a new buffer holds nothing, whatever its slots contain |
| IOBuffer.IsEmpty | cores/Cosa/api/Cosa/IOBuffer.hh:63-66 | head == tail exactly when the buffer holds no character |
| IOBuffer.IsFull | cores/Cosa/api/Cosa/IOBuffer.hh:72-75 | the slot after head is the tail exactly when SIZE - 1 characters are held |
| IOBuffer.Available | cores/Cosa/api/Cosa/IOBuffer.hh:82-85 | (SIZE + head - tail) & MASK is the number of characters held |
| IOBuffer.Room | cores/Cosa/api/Cosa/IOBuffer.hh:92-95 | (SIZE - head + tail - 1) & MASK is the number of characters that still fit |
| IOBuffer.AvailablePlusRoom | cores/Cosa/api/Cosa/IOBuffer.hh:82-95 | available plus room is always the capacity SIZE - 1 |
| IOBuffer.Putchar | cores/Cosa/api/Cosa/IOBuffer.hh:128-137 | a full buffer returns EOF and is unchanged; otherwise c is appended to the contents and the result is c & 0xff |
| IOBuffer.Peekchar | cores/Cosa/api/Cosa/IOBuffer.hh:139-146 | EOF when empty, otherwise the oldest character as stored |
| IOBuffer.Getchar | cores/Cosa/api/Cosa/IOBuffer.hh:148-156 | EOF and no change when empty; otherwise the oldest character as stored (a signed char) and it is removed from the front of the contents |
| IOBuffer.PeekIsGet | cores/Cosa/api/Cosa/IOBuffer.hh:139-156 | peekchar returns what getchar would return |
| IOBuffer.GetcharMasked | cores/Cosa/api/Cosa/IOBuffer.hh:148-156 | getchar with the result masked to 0 .. 255: the same buffer update, and EOF only for an empty buffer |
| IOBuffer.GetcharReturnsEofForFF | cores/Cosa/api/Cosa/IOBuffer.hh:136-155 | putchar of the char 0xFF into an empty buffer succeeds and returns 255, but getchar then returns EOF although the buffer is not empty |
| IOBuffer.GetcharMaskedEchoesPutchar | cores/Cosa/api/Cosa/IOBuffer.hh:128-156 | with the masked getchar, the character read back equals what putchar returned for it, and it is not EOF |
| IOBuffer.PutAllAppends | cores/Cosa/api/Cosa/IOBuffer.hh:128-137 | puts that fit append their characters to the contents, in order |
| IOBuffer.GetAllTakes | cores/Cosa/api/Cosa/IOBuffer.hh:148-156 | n gets of held characters return the n oldest, and the rest remain |
| IOBuffer.GetAllValues | cores/Cosa/api/Cosa/IOBuffer.hh:148-156 | n gets of held characters return the n oldest in order |
| IOBuffer.GetAllLeaves | cores/Cosa/api/Cosa/IOBuffer.hh:148-156 | after n gets of held characters the buffer holds the rest, in order |
| IOBuffer.FifoReplay | cores/Cosa/api/Cosa/IOBuffer.hh:128-156 | from empty, the characters put are got back in the same order, and the buffer is empty again |
| IOBuffer.GetAllMaskedTakes | cores/Cosa/api/Cosa/IOBuffer.hh:148-156 | n masked gets return the bytes of the n oldest characters, and the rest remain |
| IOBuffer.GetAllMaskedValues | cores/Cosa/api/Cosa/IOBuffer.hh:148-156 | n masked gets of held characters return the bytes of the n oldest in order |
| IOBuffer.GetAllMaskedLeaves | cores/Cosa/api/Cosa/IOBuffer.hh:148-156 | after n masked gets of held characters the buffer holds the rest, in order |
| IOBuffer.FifoReplayMasked | cores/Cosa/api/Cosa/IOBuffer.hh:128-156 | from empty, the masked gets return each character as the byte putchar returned for it, none of them EOF |
| IOBuffer.BelowCapacity | cores/Cosa/api/Cosa/IOBuffer.hh:128-137 | from empty, after fewer than SIZE - 1 puts the buffer is not full |
| IOBuffer.Capacity | cores/Cosa/api/Cosa/IOBuffer.hh:128-137 | from empty, after SIZE - 1 puts the buffer is full and the next putchar returns EOF and changes nothing |
| UsiTwi.AddressWithOp | cores/Cosa/api/Cosa/USI/TWI.hh:149-153 | the stored address is the 7-bit address shifted left; OR'ing WRITE_OP or READ_OP into it keeps the address under ADDR_MASK and puts the operation in bit 0 |
| UsiTwi.SetBufAsWritten | cores/Cosa/api/Cosa/USI/TWI.hh:230-236 | the written guard ignores exactly the indexes above VEC_MAX; the index VEC_MAX is let through and points past the vector; an index below points the cursor at the start of that buffer with the count restarted |
| UsiTwi.SetBufAdmitsVecMax | cores/Cosa/api/Cosa/USI/TWI.hh:232-236 | set_buf(VEC_MAX) passes the guard although m_vec has only VEC_MAX entries |
| UsiTwi.SetBuf | cores/Cosa/api/Cosa/USI/TWI.hh:230-236 | with the guard ix >= VEC_MAX nothing changes; otherwise the cursor covers all of buffer ix, the count is 0 and available is its size |
| UsiTwi.SetBufAgrees | cores/Cosa/api/Cosa/USI/TWI.hh:230-236 | for every index below VEC_MAX the corrected and the written set_buf behave the same |
| UsiTwi.Available | cores/Cosa/api/Cosa/USI/TWI.hh:242-245 | available is the number of bytes left under the cursor, truncated to a uint8_t |
| UsiTwi.Put | cores/Cosa/api/Cosa/USI/TWI.hh:253-258 | with the cursor before m_last, put writes the byte at the cursor of the current buffer only, advances the cursor and the count by one, and answers whether room remains |
| UsiTwi.PutAsWritten | cores/Cosa/api/Cosa/USI/TWI.hh:253-258 | put at any cursor: the store goes past the buffer exactly when the cursor is at m_last, and otherwise put behaves as above |
| UsiTwi.PutAnswerGuardsNext | cores/Cosa/api/Cosa/USI/TWI.hh:253-258 | put answers true exactly when the next put stays inside the buffer |
| UsiTwi.PutAfterFullOverruns | cores/Cosa/api/Cosa/USI/TWI.hh:255-257 | on a one-byte buffer the first put answers false and a second put stores past the buffer |
| UsiTwi.Get | cores/Cosa/api/Cosa/USI/TWI.hh:266-272 | at the end get returns nothing and changes nothing; otherwise it returns the byte under the cursor and advances the cursor and the count by one |
| UsiTwi.EndTransfer | cores/Cosa/api/Cosa/USI/TWI.hh:330-333 | end always succeeds and leaves the driver as it is |
| UsiTwi.CountingPreserved | cores/Cosa/api/Cosa/USI/TWI.hh:253-272 | put and get keep the count equal to the distance the cursor moved since set_buf |
| UsiTwi.AvailablePlusCount | cores/Cosa/api/Cosa/USI/TWI.hh:230-272 | for buffers shorter than 256 bytes, bytes left plus bytes counted is the buffer size |
| UsiTwi.PutAll | cores/Cosa/api/Cosa/USI/TWI.hh:253-258 | a run of puts advances the cursor and the count by the number of bytes and keeps the buffer length |
| UsiTwi.PutAllWrites | cores/Cosa/api/Cosa/USI/TWI.hh:253-258 | a run of puts writes the bytes over the buffer at the cursor, keeps the bytes before and after, and leaves the other buffers alone |
| UsiTwi.PutAllSegment | cores/Cosa/api/Cosa/USI/TWI.hh:253-258 | a run of puts writes the bytes over the current buffer at the cursor and keeps the bytes before and after |
| UsiTwi.PutAllOthers | cores/Cosa/api/Cosa/USI/TWI.hh:253-258 | a run of puts leaves every buffer but the current one as it was |
| UsiTwi.GetAll | cores/Cosa/api/Cosa/USI/TWI.hh:266-272 | a run of n gets returns n bytes, advances the cursor by n and changes no buffer |
| UsiTwi.GetAllReads | cores/Cosa/api/Cosa/USI/TWI.hh:266-272 | a run of n gets returns the n bytes under the cursor, in order |
| UsiTwi.PutThenGet | cores/Cosa/api/Cosa/USI/TWI.hh:230-272 | round trip: bytes put into buffer ix after set_buf(ix) are got back in order after a second set_buf(ix) |
| Rotary.DialEvent | cores/Cosa/api/Cosa/Rotary.hh:186-197 | at the bound in the turn's direction nothing happens and on_change is not called; otherwise the value moves one step in that direction and on_change gets the new value; bounds and step never change |
| Rotary.DialStaysOnGrid | cores/Cosa/api/Cosa/Rotary.hh:186-197 | when min, max and the value lie on one positive step grid, every event keeps the value on the grid and within [min, max] |
| Rotary.DialOvershoots | cores/Cosa/api/Cosa/Rotary.hh:188-190 | the bound test is equality only: a dial 0..5 with step 2 at 4 goes to 6 and then 8 |
| Rotary.SetStep | cores/Cosa/api/Cosa/Rotary.hh:234-246 | get_step after set_step(s) returns s, and value and bounds are unchanged |
| Rotary.SetGetStep | cores/Cosa/api/Cosa/Rotary.hh:234-246 | set_step(get_step()) changes nothing |
| Rotary.CreateAccel | cores/Cosa/api/Cosa/Rotary.hh:319-328 | the constructor stores the initial value, bounds and both steps, with latest 0 |
| Rotary.Increment | cores/Cosa/api/Cosa/Rotary.hh:288-299 | an event more than THRESHOLD after the latest moves by step, a quicker one by steps |
| Rotary.AccelEvent | cores/Cosa/api/Cosa/Rotary.hh:281-303 | latest becomes now on every event; at the bound nothing else happens; otherwise the value moves by the increment in the turn's direction, clamped to the bound, and on_change gets the new value |
| Rotary.AccelStaysInRange | cores/Cosa/api/Cosa/Rotary.hh:281-303 | with non-negative steps a value in [min, max] stays there, and never moves against the turn |
| Rotary.AccelRun | cores/Cosa/api/Cosa/Rotary.hh:281-303 | a run of events keeps latest a 32-bit time |
| Rotary.AccelReachesMax | cores/Cosa/api/Cosa/Rotary.hh:281-303 | with positive steps, max - value clockwise events from a value in range reach max |
| Rotary.AccelSetStep | cores/Cosa/api/Cosa/Rotary.hh:343-355 | get_step after set_step(s) returns s and nothing else changes |
| Rotary.AccelSetSteps | cores/Cosa/api/Cosa/Rotary.hh:361-373 | get_steps after set_steps(s) returns s and nothing else changes |
| Rotary.AccelSetGet | cores/Cosa/api/Cosa/Rotary.hh:343-373 | setting the step or steps just read changes nothing |
| Touch.Create | cores/Cosa/api/Cosa/Touch.cpp:30-40 | a new sensor is not sampling, not touched, its pin an output, with the given uint16_t threshold |
| Touch.OnEvent | cores/Cosa/api/Cosa/Touch.cpp:43-72 | events flip the phase; a charging event only makes the pin an input; a sampling event makes it an output, and a clear reading restarts the release timer and calls on_touch only when not already touched; any other reading releases the touch only when more than THRESHOLD has passed since the latest clear one |
| Touch.Run | cores/Cosa/api/Cosa/Touch.cpp:43-72 | a run of events keeps the threshold and a 32-bit timer |
| Touch.PhasesAlternate | cores/Cosa/api/Cosa/Touch.cpp:46-56 | after n events the phase has flipped n times |
| Touch.TouchesAlternate | cores/Cosa/api/Cosa/Touch.cpp:59-71 | on_touch calls and releases alternate: over any run, calls plus the touch state before equal releases plus the touch state after |
| Touch.HeldTouch | cores/Cosa/api/Cosa/Touch.cpp:59-71 | while touched, a run whose readings that are not clear all come within THRESHOLD of the latest clear one keeps the touch, calls on_touch no more and releases nothing |
| IRReceiver.OnInterrupt | cores/Cosa/api/Cosa/IR.cpp:30-62 | once max samples are in nothing happens; otherwise the period since the last edge is stored as a sample, samples 2 .. max - 3 add one code bit (1 for a period above the threshold), the first edge attaches the watchdog, and the max-th edge completes the code with its low 16 bits, the uint16_t event value |
| IRReceiver.Reset | cores/Cosa/api/Cosa/IR.cpp:64-77 | index and code are 0 and a new period starts now; threshold, max and samples are kept |
| IRReceiver.Feed | cores/Cosa/api/Cosa/IR.cpp:30-62 | a run of edges keeps max and the threshold and leaves the receiver in a state on_interrupt accepts |
| IRReceiver.Periods | cores/Cosa/api/Cosa/IR.cpp:40-42 | one period per edge |
| IRReceiver.Bits | cores/Cosa/api/Cosa/IR.cpp:50-51 | the code of n periods fits in n bits |
| IRReceiver.FeedPrefix | cores/Cosa/api/Cosa/IR.cpp:30-62 | after k <= max edges from a reset, the index is k, the period runs from the last edge, the code holds the bits of the inner periods seen so far, and the max-th edge and no other completes the low 16 bits of that code |
| IRReceiver.FeedOne | cores/Cosa/api/Cosa/IR.cpp:30-62 | one edge of a run is one interrupt |
| IRReceiver.FeedAppend | cores/Cosa/api/Cosa/IR.cpp:30-62 | feeding two runs of edges one after the other is feeding their concatenation |
| IRReceiver.PeriodAt | cores/Cosa/api/Cosa/IR.cpp:40-42 | the period of edge i is the 32-bit wrap-around time since the edge before it, or since start for the first |
| IRReceiver.WindowStep | cores/Cosa/api/Cosa/IR.cpp:50-51 | edge k shifts the bit of its period into the code exactly when sample k - 1 is one of the inner samples |
| IRReceiver.ReceiveCode | cores/Cosa/api/Cosa/IR.cpp:30-77 | after a reset with max >= 4, max edges complete exactly one 16-bit event value: the low 16 bits of the code of the max - 4 inner periods, first in the highest bit, the first two and last two periods skipped; that is the code accumulated in 16 bits, and the whole code when max <= 20 |
| IRReceiver.FullIgnores | cores/Cosa/api/Cosa/IR.cpp:34 | once max samples are in, further edges change nothing and complete nothing |
| IRReceiver.Bits16Low | cores/Cosa/api/Cosa/IR.cpp:50-51 | shifting the code in a 16-bit word keeps exactly the low 16 bits of the unbounded code |
| IRReceiver.AllLong | cores/Cosa/api/Cosa/IR.cpp:50-51 | periods all above the threshold give a code of all ones |
| IRReceiver.LongCodeTruncated | cores/Cosa/api/Cosa/IR.cpp:61 | 17 inner periods above the threshold make the code 0x1FFFF while the event carries 0xFFFF |
| IRReceiver.ShortCodeWhole | cores/Cosa/api/Cosa/IR.cpp:50-61 | with at most 16 inner periods (max <= 20) the event carries the whole code of the inner periods |
| IRReceiver.AsInt16 | cores/Cosa/api/Cosa/IR.cpp:85 | the signed 16-bit int a key word reads as: between -0x8000 and 0x7FFF and congruent to the word modulo 2^16 |
| IRReceiver.Lookup | cores/Cosa/api/Cosa/IR.cpp:79-87 | -1 without a keymap or when no entry has the 16-bit code; otherwise the key word of the first entry with the code, read as a signed 16-bit int, so a key of 0xFFFF also gives -1; any other result is the key of an entry with the code |
| PinChange.FiredBelow | cores/Cosa/api/Cosa/PinChangeInterrupt.cpp:105-110 | the handlers called for the bits seen so far lie in the slots of those bits |
| PinChange.Fired | cores/Cosa/api/Cosa/PinChangeInterrupt.cpp:105-108 | the loop over bits below n calls at most one handler per bit |
| PinChange.FiredSorted | cores/Cosa/api/Cosa/PinChangeInterrupt.cpp:105-110 | handlers are called lowest bit first, each at most once |
| PinChange.FiredMembers | cores/Cosa/api/Cosa/PinChangeInterrupt.cpp:105-108 | among the bits seen so far, slot s is called exactly when its bit changed and an instance is registered there |
| PinChange.FiredSpec | cores/Cosa/api/Cosa/PinChangeInterrupt.cpp:105-110 | the handlers called for all eight bits are exactly the registered slots of the changed bits, in increasing order |
| PinChange.FiredStable | cores/Cosa/api/Cosa/PinChangeInterrupt.cpp:105 | once no changed bit is left, the remaining bits call nothing, so stopping the loop early loses no handler |
| PinChange.ShiftRight | cores/Cosa/api/Cosa/PinChangeInterrupt.cpp:109 | changed >>= 1 moves every bit down one place and clears the top bit |
| PinChange.ShiftStep | cores/Cosa/api/Cosa/PinChangeInterrupt.cpp:105-109 | at step i the low bit of the shifted value is bit i of the changed mask, and the shift moves on to bit i + 1 |
| PinChange.ShiftedOut | cores/Cosa/api/Cosa/PinChangeInterrupt.cpp:105 | when the shifted value is 0 at step i, no changed bit from i up is left |
| PinChange.Changed | cores/Cosa/api/Cosa/PinChangeInterrupt.cpp:101-102 | bit k of the changed mask is set exactly when bit k of the port differs from the saved state and is enabled in the mask |
| PinChange.XorAndBits | cores/Cosa/api/Cosa/PinChangeInterrupt.cpp:102 | a bit of (a ^ b) & m is set exactly when a and b differ there and m has it |
| PinChange.Dispatch | cores/Cosa/api/Cosa/PinChangeInterrupt.cpp:105-110 | the dispatch loop, stopping as soon as no changed bit is left, calls exactly the taken slots base + i of the changed bits i, lowest first |
| PinChange.DispatchedBit | cores/Cosa/api/Cosa/PinChangeInterrupt.cpp:105-108 | in a dispatch, slot base + j is called exactly when bit j changed and the slot is taken |
| PinChange.OnInterrupt | cores/Cosa/api/Cosa/PinChangeInterrupt.cpp:99-113 | the handlers called are exactly the registered slots pcint * 8 + i whose bit i differs from the saved state and is set in the mask, lowest bit first; the saved state of the group becomes the port value and no other state changes |
| PinChange.Slot | cores/Cosa/api/Cosa/PinChangeInterrupt.cpp:50-69 | the instance slot of a pin is the pin itself, or on the Mega pin - 16 below 24 and pin - 48 otherwise |
| PinChange.MegaSlots | cores/Cosa/api/Cosa/PinChangeInterrupt.cpp:45-113 | on the Mega, pins 16 .. 23 register in the slots group 0 dispatches and pins 64 .. 71 in the slots group 2 dispatches |
| PinChange.Enable | cores/Cosa/api/Cosa/PinChangeInterrupt.cpp:45-57 | enable ORs the pin's mask into the mask register and takes the pin's slot; no other slot and no saved state changes |
| PinChange.Disable | cores/Cosa/api/Cosa/PinChangeInterrupt.cpp:59-71 | disable clears the pin's mask bits in the mask register and frees the pin's slot; no other slot and no saved state changes |
| PinChange.DisableUndoesEnable | cores/Cosa/api/Cosa/PinChangeInterrupt.cpp:45-71 | enable then disable on a free slot whose mask bits were clear restores the tables and the register |
| PinChange.EnabledFires | cores/Cosa/api/Cosa/PinChangeInterrupt.cpp:45-113 | after enable, for a pin whose slot is pcint * 8 + j (the slot the written dispatch reads for bit j) and whose mask bit is j, the handler is called exactly when bit j of the port changed; the Standard board's port C does not meet the slot hypothesis |
| PinChange.DisabledSilent | cores/Cosa/api/Cosa/PinChangeInterrupt.cpp:59-113 | after disable, the pin's handler is not called, whatever changed |
| PinChange.BoardBases | cores/Cosa/api/Cosa/PinChangeInterrupt.cpp:147-161 | on the Mega and on ports B and D of the Standard board the port's first pin has slot pcint * 8, as the written dispatch assumes; on port C (pins 14 .. 19) it has slot 14 while the dispatch starts at 16 |
| PinChange.StandardA0CallsA2 | cores/Cosa/api/Cosa/PinChangeInterrupt.cpp:103 | as written on the Standard board, with A0 and A2 enabled a change of A0 alone calls the handler in slot 16, which is A2's |
| PinChange.OnVector | cores/Cosa/api/Cosa/PinChangeInterrupt.cpp:99-113 | with the dispatch based at the slot of the port's first pin, the handlers called are exactly the taken slots of the changed, enabled bits, lowest first; the saved state becomes the port value |
| PinChange.PortSlot | cores/Cosa/api/Cosa/PinChangeInterrupt.cpp:50-56 | the pins of one port have consecutive slots |
| PinChange.VectorFires | cores/Cosa/api/Cosa/PinChangeInterrupt.cpp:45-113 | with the corrected dispatch on every board, after enable the pin's handler is called exactly when its bit of the port changed since the saved state |
| OffScreen.DrawPixelOverflows | cores/Cosa/api/Cosa/Canvas/OffScreen.hh:81-82 | on an 8 x 8 screen, drawing at x = 8 passes the written guard and stores one byte past the bitmap |
| OffScreen.DrawPixelAsWritten | cores/Cosa/api/Cosa/Canvas/OffScreen.hh:79-88 | the written draw_pixel agrees with the corrected one inside the screen, and stores outside the bitmap only for a coordinate equal to the width or the height |
| OffScreen.PixelInRange | cores/Cosa/api/Cosa/Canvas/OffScreen.hh:82 | a pixel inside the size of a paged screen has its byte inside the bitmap |
| OffScreen.IndexInRange | cores/Cosa/api/Cosa/Canvas/OffScreen.hh:42-82 | when the height is a whole number of pages, every pixel inside the size has its byte inside the COUNT-byte bitmap |
| OffScreen.DrawPixel | cores/Cosa/api/Cosa/Canvas/OffScreen.hh:79-88 | with the guard x >= WIDTH or y >= HEIGHT an outside pixel changes nothing; an inside pixel becomes set for a black pen and clear otherwise, no other bit of its byte and no other byte changes |
| OffScreen.DrawPixelAgrees | cores/Cosa/api/Cosa/Canvas/OffScreen.hh:79-88 | inside the screen the corrected and the written draw_pixel do the same |
| OffScreen.PixelsIndependent | cores/Cosa/api/Cosa/Canvas/OffScreen.hh:79-88 | drawing one pixel leaves every other pixel of the screen as it was |
| OffScreen.SameIndex | cores/Cosa/api/Cosa/Canvas/OffScreen.hh:82 | two pixels share a byte only when they have the same column and the same page |
| OffScreen.FillScreenAsWritten | cores/Cosa/api/Cosa/Canvas/OffScreen.hh:94-97 | the written fill sets every byte to 1 for a black canvas and 0 otherwise |
| OffScreen.FillScreenBlackIsStriped | cores/Cosa/api/Cosa/Canvas/OffScreen.hh:96 | after the written black fill a pixel is set exactly when its row is a multiple of 8 |
| OffScreen.FillScreen | cores/Cosa/api/Cosa/Canvas/OffScreen.hh:94-97 | the corrected fill sets every byte to 0xff for a black canvas and 0 otherwise |
| OffScreen.FillScreenColours | cores/Cosa/api/Cosa/Canvas/OffScreen.hh:94-97 | after the corrected fill every pixel has the canvas colour |
| OffScreen.BeginAsWritten | cores/Cosa/api/Cosa/Canvas/OffScreen.hh:67-71 | begin as written succeeds and leaves the screen as the written fill_screen does |
| OffScreen.BeginAsWrittenStriped | cores/Cosa/api/Cosa/Canvas/OffScreen.hh:67-71 | as written, begin on a black canvas sets only the first row of every page, and on any other canvas clears every pixel |
| OffScreen.Begin | cores/Cosa/api/Cosa/Canvas/OffScreen.hh:67-71 | begin with the corrected fill_screen succeeds and leaves the screen as that fill does |
| OffScreen.BeginColours | cores/Cosa/api/Cosa/Canvas/OffScreen.hh:67-71 | with the corrected fill, begin leaves every pixel of the screen with the canvas colour |
| OffScreen.End | cores/Cosa/api/Cosa/Canvas/OffScreen.hh:104-107 | end succeeds and changes nothing |
| VLCD.Forward | cores/Cosa/api/Cosa/LCD/Driver/VLCD.cpp:35-39 | text is forwarded byte for byte: the first byte always, then bytes 1 .. size - 1, in order |
| VLCD.OnRequest | cores/Cosa/api/Cosa/LCD/Driver/VLCD.cpp:30-69 | with the prefix compared as a byte: text is forwarded; [COMMAND, code] performs the code's LCD calls, and INIT_CMD also puts MAJOR, MINOR, 16, 2 in the first four buffer bytes; [COMMAND, x, y] sets the cursor; any other command request does nothing |
| VLCD.OnRequestAsWritten | cores/Cosa/api/Cosa/LCD/Driver/VLCD.cpp:30-40 | as written, a request whose first byte is not COMMAND is handled as by the corrected slave, and the buffer is never changed |
| VLCD.AsWrittenForwardsAll | cores/Cosa/api/Cosa/LCD/Driver/VLCD.cpp:34-35 | as written, every request is forwarded as text and none is taken as a command |
| VLCD.Received | cores/Cosa/api/Cosa/LCD/Driver/VLCD.hh:47-79 | a received frame occupies the front of the 40-byte request buffer |
| VLCD.CommandFrameIsText | cores/Cosa/api/Cosa/LCD/Driver/VLCD.cpp:30-84 | as written, the backlight-off frame reaches the slave's LCD as the characters 255 and 0, where the byte comparison would switch the backlight off |
| VLCD.Attempts | cores/Cosa/api/Cosa/LCD/Driver/VLCD.cpp:78-82 | the command frame is written up to three times, stopping after the first write that reports all its bytes |
| VLCD.WriteCommand | cores/Cosa/api/Cosa/LCD/Driver/VLCD.cpp:71-84 | nothing is sent when begin fails; otherwise one to three copies of the frame are sent |
| VLCD.CommandRoundTrip | cores/Cosa/api/Cosa/LCD/Driver/VLCD.cpp:30-84 | every frame the master sends for a command, received by the corrected slave, makes its LCD perform the calls the command names |
| VLCD.Add8 | cores/Cosa/api/Cosa/LCD/Driver/VLCD.cpp:179-180 | uint8_t addition: the result is congruent to the sum modulo 256, equal to it without overflow, and below the first operand after an overflow of less than 256 |
| VLCD.SetCursorMaster | cores/Cosa/api/Cosa/LCD/Driver/VLCD.cpp:143-155 | when begin fails nothing changes; otherwise the frame [0, x, y] is sent and the cursor becomes (x, y) |
| VLCD.SetCursorIsText | cores/Cosa/api/Cosa/LCD/Driver/VLCD.cpp:143-155 | the slave receives the set_cursor frame as the three characters 0, x and y, not as a cursor move |
| VLCD.TabStep | cores/Cosa/api/Cosa/LCD/Driver/VLCD.cpp:179 | x + tab - x % tab is the next multiple of tab above x |
| VLCD.Putchar | cores/Cosa/api/Cosa/LCD/Driver/VLCD.cpp:157-185 | the character is sent when begin succeeds; the result is the character as 0 .. 255 when one byte was written and -1 otherwise, with the cursor unchanged on failure and for printable characters; size and tab never change |
| VLCD.BackspaceRule | cores/Cosa/api/Cosa/LCD/Driver/VLCD.cpp:166-168 | backspace moves one column left, stopping at column 0, on the same line |
| VLCD.NewlineRule | cores/Cosa/api/Cosa/LCD/Driver/VLCD.cpp:173-177 | newline goes to column 0 of the next line; the line wraps to 0 only after it passes the height |
| VLCD.TabRule | cores/Cosa/api/Cosa/LCD/Driver/VLCD.cpp:178-182 | tab goes to the next tab stop on the same line when it is inside the width, and otherwise to column 0 of the next line |
| VLCD.ClearHomes | cores/Cosa/api/Cosa/LCD/Driver/VLCD.cpp:137-172 | display_clear homes the cursor to (0, 0) |
| VLCD.Write | cores/Cosa/api/Cosa/LCD/Driver/VLCD.cpp:187-196 | -1 and nothing sent when begin fails; otherwise the buffer is sent, and a negative write result gives -1 with the cursor unchanged, while any other gives that count with the column advanced by the size (uint8_t) |
| VLCD.TextRoundTrip | cores/Cosa/api/Cosa/LCD/Driver/VLCD.cpp:187-196 | text not starting with COMMAND, written by the master and received by the slave, reaches the slave's LCD as the same characters in order |
| HD44780.Create | cores/Cosa/api/Cosa/LCD/Driver/HD44780.hh:243-253 | a new driver mirrors entry mode 0x06 (increment), control 0x08 (all off) and function set 0x28 (4-bit, two lines, 5x8), and uses the second row-offset table exactly for a 16 x 4 display |
| HD44780.Set | cores/Cosa/api/Cosa/LCD/Driver/HD44780.hh:197-200 | the mirror afterwards has exactly the bits of the old mirror and of the mask, and that byte is the one instruction written |
| HD44780.Clear | cores/Cosa/api/Cosa/LCD/Driver/HD44780.hh:207-210 | the mirror afterwards has exactly the bits of the old mirror that are not in the mask, and that byte is the one instruction written |
| HD44780.SetIdempotent | cores/Cosa/api/Cosa/LCD/Driver/HD44780.hh:197-200 | setting the same mask twice leaves the mirror as setting it once |
| HD44780.SetThenClearRestores | cores/Cosa/api/Cosa/LCD/Driver/HD44780.hh:197-210 | set then clear of a mask whose bits were clear restores the mirror |
| HD44780.SetTouchesOneBit | cores/Cosa/api/Cosa/LCD/Driver/HD44780.hh:197-200 | set with a one-bit mask sets that bit and keeps every other bit |
| HD44780.ClearTouchesOneBit | cores/Cosa/api/Cosa/LCD/Driver/HD44780.hh:207-210 | clear with a one-bit mask clears that bit and keeps every other bit |
| HD44780.HelperTouchesOneBit | cores/Cosa/api/Cosa/LCD/Driver/HD44780.hh:324-391 | each of the eight cursor and text-flow helpers changes exactly its one bit of its one mirror (CURSOR_ON or BLINK_ON of control, INCREMENT or DISPLAY_SHIFT of entry mode) to the value it names, leaves the other mirrors and the size alone, and writes the updated mirror as one instruction |
| HD44780.DisplayScroll | cores/Cosa/api/Cosa/LCD/Driver/HD44780.hh:297-308 | scrolling left writes the single instruction 0x18 and scrolling right 0x1c |
| HD44780.Sr3wLayout | cores/Cosa/api/Cosa/LCD/Driver/HD44780.hh:552-569 | the SR3W port byte carries data in bits 0-3, rs in bit 4 and the backlight in bit 5, and the six low bits determine the fields |
| HD44780.MjkdzLayout | cores/Cosa/api/Cosa/LCD/Driver/HD44780.hh:908-925 | the MJKDZ port byte (data bits 0-3, en 4, rw 5, rs 6, backlight 7) is a bijection between ports with a 4-bit data field and bytes |
| HD44780.DfrobotLayout | cores/Cosa/api/Cosa/LCD/Driver/HD44780.hh:1009-1026 | the DFRobot port byte (rs bit 0, rw 1, en 2, backlight 3, data 4-7) is a bijection between ports with a 4-bit data field and bytes |
| HD44780.NibblesJoin | cores/Cosa/api/Cosa/LCD/Driver/HD44780_IO_MJKDZ.cpp:51-56 | the high nibble data >> 4 and the low nibble of a byte reassemble to the byte |
| HD44780Mjkdz.InitialPort | cores/Cosa/api/Cosa/LCD/Driver/HD44780.hh:921-924 | the constructed port is the byte 0, with EN low |
| HD44780Mjkdz.Frames | cores/Cosa/api/Cosa/LCD/Driver/HD44780_IO_MJKDZ.cpp:73-85 | each character becomes four expander bytes |
| HD44780Mjkdz.Write4b | cores/Cosa/api/Cosa/LCD/Driver/HD44780_IO_MJKDZ.cpp:35-45 | write4b is one TWI write of two bytes |
| HD44780Mjkdz.Write8b | cores/Cosa/api/Cosa/LCD/Driver/HD44780_IO_MJKDZ.cpp:47-62 | write8b is one TWI write of four bytes |
| HD44780Mjkdz.SetMode | cores/Cosa/api/Cosa/LCD/Driver/HD44780_IO_MJKDZ.cpp:90-94 | the one-bit rs field takes the low bit of the flag and nothing else changes |
| HD44780Mjkdz.SetBacklight | cores/Cosa/api/Cosa/LCD/Driver/HD44780_IO_MJKDZ.cpp:96-101 | the backlight bit is active low (set exactly when the flag is 0), nothing else changes, and the port byte is written at once |
| HD44780Mjkdz.StrobeLatches | cores/Cosa/api/Cosa/LCD/Driver/HD44780_IO_MJKDZ.cpp:39-43 | a strobe from EN low makes the controller latch exactly its nibble, with the port's other fields, at the falling EN edge |
| HD44780Mjkdz.FrameLatches | cores/Cosa/api/Cosa/LCD/Driver/HD44780_IO_MJKDZ.cpp:51-60 | the four bytes of one character from EN low deliver its high nibble, then its low nibble |
| HD44780Mjkdz.JoinPair | cores/Cosa/api/Cosa/LCD/Driver/HD44780_IO_MJKDZ.cpp:51-60 | the two delivered nibbles of a character reassemble to that character in front of the rest |
| HD44780Mjkdz.FramesDeliver | cores/Cosa/api/Cosa/LCD/Driver/HD44780_IO_MJKDZ.cpp:73-85 | the frames of a buffer deliver two nibbles per character, which reassemble to the buffer, each with the port's rs, rw and backlight bits |
| HD44780Mjkdz.FramesAppend | cores/Cosa/api/Cosa/LCD/Driver/HD44780_IO_MJKDZ.cpp:73-85 | the frames of a concatenation are the concatenation of the frames |
| HD44780Mjkdz.Chunks | cores/Cosa/api/Cosa/LCD/Driver/HD44780_IO_MJKDZ.cpp:64-88 | write8n sends at most one TWI write per byte of the buffer, and none exactly when the buffer is empty |
| HD44780Mjkdz.ChunksSplit | cores/Cosa/api/Cosa/LCD/Driver/HD44780_IO_MJKDZ.cpp:64-88 | write8n sends ceil(size / 8) TWI writes, each nonempty, of at most TMP_MAX bytes and a multiple of four, whose concatenation is the frames of all characters |
| HD44780Mjkdz.ChunksCount | cores/Cosa/api/Cosa/LCD/Driver/HD44780_IO_MJKDZ.cpp:68-71 | write8n sends ceil(size / 8) TWI writes |
| HD44780Mjkdz.ChunksShape | cores/Cosa/api/Cosa/LCD/Driver/HD44780_IO_MJKDZ.cpp:69-86 | every TWI write of write8n is nonempty, fits TMP_MAX and holds whole characters (a multiple of four bytes) |
| HD44780Mjkdz.ChunksFlatten | cores/Cosa/api/Cosa/LCD/Driver/HD44780_IO_MJKDZ.cpp:68-87 | the TWI writes of write8n, concatenated, are the frames of all characters in order |
| HD44780Mjkdz.Write8nDelivers | cores/Cosa/api/Cosa/LCD/Driver/HD44780_IO_MJKDZ.cpp:64-88 | from EN low, the nibbles latched from all of write8n's TWI writes reassemble to exactly the buffer, and the port ends with EN low and rs, rw and backlight unchanged |
| HD44780Mjkdz.Write8bIsWrite8n | cores/Cosa/api/Cosa/LCD/Driver/HD44780_IO_MJKDZ.cpp:47-88 | write8b sends the same bytes as write8n of one character and leaves the same port |
| HD44780Mjkdz.Write4bDelivers | cores/Cosa/api/Cosa/LCD/Driver/HD44780_IO_MJKDZ.cpp:35-45 | write4b from EN low delivers exactly one nibble with the port's other fields |
| HD44780Sr3w.InitialPort | cores/Cosa/api/Cosa/LCD/Driver/HD44780.hh:565-568 | the constructed port is the byte 0 |
| HD44780Sr3w.Write4b | cores/Cosa/api/Cosa/LCD/Driver/HD44780_IO_SR3W.cpp:34-61 | the data field becomes the low nibble, nothing else in the port changes, and twenty pin operations are issued |
| HD44780Sr3w.Write8b | cores/Cosa/api/Cosa/LCD/Driver/HD44780_IO_SR3W.cpp:63-71 | the data field ends with the low nibble and forty pin operations are issued |
| HD44780Sr3w.SetMode | cores/Cosa/api/Cosa/LCD/Driver/HD44780_IO_SR3W.cpp:73-77 | the one-bit rs field takes the low bit of the flag and nothing else changes |
| HD44780Sr3w.SetBacklight | cores/Cosa/api/Cosa/LCD/Driver/HD44780_IO_SR3W.cpp:79-83 | the one-bit backlight field takes the low bit of the flag, nothing else changes, and nothing is sent |
| HD44780Sr3w.RunAppend | cores/Cosa/api/Cosa/LCD/Driver/HD44780_IO_SR3W.cpp:39-60 | running the shift register on two runs of pin operations is running it on their concatenation |
| HD44780Sr3w.ShiftOutShifts | cores/Cosa/api/Cosa/LCD/Driver/HD44780_IO_SR3W.cpp:40-42 | whatever the SCL level, one write of SDA and two SCL toggles shift exactly one bit into the register and leave SCL at its level |
| HD44780Sr3w.PulseLatches | cores/Cosa/api/Cosa/LCD/Driver/HD44780_IO_SR3W.cpp:58-59 | from EN low the two EN toggles latch the register onto the outputs, and the display takes the outputs once |
| HD44780Sr3w.SixShifts | cores/Cosa/api/Cosa/LCD/Driver/HD44780_IO_SR3W.cpp:40-57 | six bits shifted in from bit 5 down to bit 0 end up in Q5 .. Q0 |
| HD44780Sr3w.UnpackLowSix | cores/Cosa/api/Cosa/LCD/Driver/HD44780.hh:552-560 | the fields the display reads depend only on Q0 .. Q5 |
| HD44780Sr3w.Write4bDelivers | cores/Cosa/api/Cosa/LCD/Driver/HD44780_IO_SR3W.cpp:34-61 | from EN low, write4b makes the display latch exactly the nibble with the port's rs bit, puts the port's six bits on Q0 .. Q5, and leaves SCL and EN at their levels |
| HD44780Sr3w.Write8bDelivers | cores/Cosa/api/Cosa/LCD/Driver/HD44780_IO_SR3W.cpp:63-71 | from EN low, write8b makes the display latch two nibbles that reassemble to the byte, both with the port's rs bit |
| HD44780Erm1602.Create | cores/Cosa/api/Cosa/LCD/Driver/HD44780.hh:1121-1122 | a new adapter selects the instruction register with no function set pending |
| HD44780Erm1602.FunctionSet | cores/Cosa/api/Cosa/LCD/Driver/HD44780_IO_ERM1602_5.cpp:45-46 | the deferred function set is 0x38 (8-bit, two lines) for instructions and 0x3c, with the extended bit, for data |
| HD44780Erm1602.Prefix | cores/Cosa/api/Cosa/LCD/Driver/HD44780_IO_ERM1602_5.cpp:44-50 | a pending function set is sent once and cleared; nothing is sent when none is pending |
| HD44780Erm1602.Write8b | cores/Cosa/api/Cosa/LCD/Driver/HD44780_IO_ERM1602_5.cpp:40-58 | write8b sends the pending function set if any, the length instruction in data mode, and then the byte last; nothing is pending afterwards |
| HD44780Erm1602.Write4b | cores/Cosa/api/Cosa/LCD/Driver/HD44780_IO_ERM1602_5.cpp:34-38 | write4b behaves exactly as write8b of the same value |
| HD44780Erm1602.LengthInstruction | cores/Cosa/api/Cosa/LCD/Driver/HD44780_IO_ERM1602_5.cpp:73 | the length instruction has bit 7 set and, for 1 to 128 bytes, holds size - 1 in its low seven bits |
| HD44780Erm1602.LengthBits | cores/Cosa/api/Cosa/LCD/Driver/HD44780_IO_ERM1602_5.cpp:73 | SET_DDATA_LENGTH OR'ed with a masked length has bit 7 set and keeps a length below 128 |
| HD44780Erm1602.Write8n | cores/Cosa/api/Cosa/LCD/Driver/HD44780_IO_ERM1602_5.cpp:60-84 | an empty buffer sends nothing and changes nothing; otherwise the buffer is the tail of what is sent and nothing is pending afterwards |
| HD44780Erm1602.SetMode | cores/Cosa/api/Cosa/LCD/Driver/HD44780_IO_ERM1602_5.cpp:86-92 | the register select becomes the flag; a repeated flag changes nothing; a change flips the pending function set |
| HD44780Erm1602.SwitchBackCancels | cores/Cosa/api/Cosa/LCD/Driver/HD44780_IO_ERM1602_5.cpp:86-92 | switching the register select away and back cancels the pending function set |
| HD44780Erm1602.FeedAppend | cores/Cosa/api/Cosa/LCD/Driver/HD44780_IO_ERM1602_5.cpp:60-84 | the display module receiving two byte runs in turn receives their concatenation |
| HD44780Erm1602.FeedData | cores/Cosa/api/Cosa/LCD/Driver/HD44780_IO_ERM1602_5.cpp:76-81 | bytes the module expects after a length instruction are taken as display data, whatever their value |
| HD44780Erm1602.FeedInstructions | cores/Cosa/api/Cosa/LCD/Driver/HD44780_IO_ERM1602_5.cpp:76-81 | with the instruction register selected, instructions other than function sets are received as instructions and keep the register |
| HD44780Erm1602.SetModeKeepsSync | cores/Cosa/api/Cosa/LCD/Driver/HD44780_IO_ERM1602_5.cpp:86-92 | set_mode with 0 or 1 keeps the pending flag equal to "the module's register differs from m_rs" |
| HD44780Erm1602.PrefixSelects | cores/Cosa/api/Cosa/LCD/Driver/HD44780_IO_ERM1602_5.cpp:44-71 | in sync, the pending function set selects in the module the register m_rs names |
| HD44780Erm1602.Write8nDelivers | cores/Cosa/api/Cosa/LCD/Driver/HD44780_IO_ERM1602_5.cpp:60-84 | in sync, write8n of 1 to 128 bytes delivers the buffer as display data in data mode and as instructions in instruction mode, and leaves adapter and module in sync |
| HD44780Erm1602.Write8bDelivers | cores/Cosa/api/Cosa/LCD/Driver/HD44780_IO_ERM1602_5.cpp:40-58 | in sync, write8b delivers its byte as one byte of display data or one instruction, and leaves adapter and module in sync |
| HD44780Erm1602.LongBufferLength | cores/Cosa/api/Cosa/LCD/Driver/HD44780_IO_ERM1602_5.cpp:73 | for 129 bytes the seven-bit length field wraps to 0, so the module expects one byte where 129 are sent |
| Canvas.Rgb | cores/Cosa/examples/Sandbox/CosaBitfields/color16.h:35-42 | the 16-bit view of a colour holds blue in bits 0-4, green in bits 5-10 and red in bits 11-15 |
| Canvas.FromRgb | cores/Cosa/examples/Sandbox/CosaBitfields/color16.h:35-42 | every 16-bit value is the rgb view of the fields read back from it |
| Canvas.RgbRoundTrip | cores/Cosa/examples/Sandbox/CosaBitfields/color16.h:35-42 | reading the fields of a colour's rgb view gives the colour back, so the two views of the union agree |
| Canvas.ShadeChannelBounds | cores/Cosa/api/Cosa/Canvas.cpp:36-38 | scaling a channel by at most 100 percent never brightens it, keeps it at 100 and zeroes it at 0 |
| Canvas.Shade | cores/Cosa/api/Cosa/Canvas.cpp:31-40 | no channel of the shade is brighter than the colour's; any scale of 100 or more gives the colour itself and scale 0 gives black |
| Canvas.ShadeMonotone | cores/Cosa/api/Cosa/Canvas.cpp:31-40 | a larger scale never gives a darker channel |
| Canvas.Blend | cores/Cosa/api/Cosa/Canvas.cpp:42-50 | every channel of the blend lies between the two inputs' channels and is their average rounded down |
| Canvas.BlendSymmetric | cores/Cosa/api/Cosa/Canvas.cpp:42-50 | blending is commutative and blending a colour with itself gives it back |
| Canvas.SetOrientation | cores/Cosa/api/Cosa/Canvas.cpp:52-64 | set_orientation returns the previous orientation and stores 0 or 1, the parity of the direction |
| Canvas.OrientationRoundTrip | cores/Cosa/api/Cosa/Canvas.cpp:52-64 | the orientation stored is read back by the next set_orientation, and setting the same direction twice stores the same value |
| Canvas.FillRect | cores/Cosa/api/Cosa/Canvas.cpp:133-139 | fill_rect makes width times height draw_pixel calls, column by column, call k at column k / height and row k % height, in uint8_t arithmetic |
| Canvas.FillRectCovers | cores/Cosa/api/Cosa/Canvas.cpp:133-139 | without wrap-around every pixel of the rectangle is drawn |
| Canvas.FillRectInside | cores/Cosa/api/Cosa/Canvas.cpp:133-139 | without wrap-around no pixel outside the rectangle is drawn |
| Canvas.Normalize | cores/Cosa/api/Cosa/Canvas.cpp:141-158 | the normalised line runs left to right with slope at most one, is steep exactly when the endpoints differ more in y than in x, and maps back to the two endpoints in one order or the other |
| Canvas.EndsOnLine | cores/Cosa/api/Cosa/Canvas.cpp:156-172 | the only minor coordinate on the ideal line at the first and last steps is that of the endpoint |
| Canvas.StateOnLine | cores/Cosa/api/Cosa/Canvas.cpp:159-172 | while draw_line's loop runs, its y0 is within half a pixel of the ideal line |
| Canvas.StateStep | cores/Cosa/api/Cosa/Canvas.cpp:167-171 | one step of the error term keeps the loop invariant and moves y0 by at most one |
| Canvas.Minors | cores/Cosa/api/Cosa/Canvas.cpp:161-172 | the loop plots one minor coordinate per remaining major coordinate |
| Canvas.MinorsOnLine | cores/Cosa/api/Cosa/Canvas.cpp:161-172 | every minor coordinate draw_line plots is within half a pixel of the ideal line |
| Canvas.MinorsSteps | cores/Cosa/api/Cosa/Canvas.cpp:161-172 | consecutive minor coordinates differ by at most one |
| Canvas.PixelOfMinor | cores/Cosa/api/Cosa/Canvas.cpp:162-166 | the pixel plotted at step i, with the coordinates swapped back for a steep line, has major coordinate x0 + i and minor coordinate the current y0 |
| Canvas.PixelsOfMinors | cores/Cosa/api/Cosa/Canvas.cpp:161-172 | pixels built from on-line, steady minor coordinates start and end at the endpoints and form a connected line |
| Canvas.DrawLine | cores/Cosa/api/Cosa/Canvas.cpp:144-173 | draw_line plots one pixel per major coordinate, the first and last at the endpoints, every one within half a pixel of the ideal line, each next to the one before |
| Canvas.DrawPixel | cores/Cosa/api/Cosa/Canvas.cpp:66-70 | draw_pixel by fill_rect draws exactly the one pixel |
| Canvas.DrawHorizontalLine | cores/Cosa/api/Cosa/Canvas.cpp:181-185 | without wrap-around the pixels are (x + i, y) for i from 0 to length |
| Canvas.DrawVerticalLine | cores/Cosa/api/Cosa/Canvas.cpp:175-179 | without wrap-around the pixels are (x, y + i) for i from 0 to length |
| Canvas.DrawRect | cores/Cosa/api/Cosa/Canvas.cpp:124-131 | draw_rect draws exactly the outline of the rectangle, four edges of length + 1 pixels each |
| Canvas.NextBit | cores/Cosa/api/Cosa/Canvas.cpp:80-89 | after a shift the low bit of line is the next row's bit of the same byte |
| Canvas.ByteInBitmap | cores/Cosa/api/Cosa/Canvas.cpp:77-81 | every byte draw_bitmap reads for a cell inside width by height lies inside the bitmap |
| Canvas.CellBit | cores/Cosa/api/Cosa/Canvas.cpp:80-82 | the bit read for cell (i, j) is bit j % 8 of byte j / 8 of column i |
| Canvas.DrawColumn | cores/Cosa/api/Cosa/Canvas.cpp:78-90 | one column of draw_bitmap makes exactly the calls for its set cells, top down |
| Canvas.DrawBitmap | cores/Cosa/api/Cosa/Canvas.cpp:72-92 | draw_bitmap makes exactly the calls for the set cells, column by column: a pixel at scale 1, else a scale by scale fill_rect |
| Canvas.PolyStops | cores/Cosa/api/Cosa/Canvas.cpp:187-201 | a table with a (0, 0) pair draws one line per pair before it, each starting where the previous one ended |
| Canvas.PolyFrom | cores/Cosa/api/Cosa/Canvas.cpp:191-200 | a result of draw_poly_P ends at the first (0, 0) pair from the start pair and holds only lines; a table without a (0, 0) pair makes it read past its end |
| Canvas.PolyScaleZero | cores/Cosa/api/Cosa/Canvas.cpp:190 | at scale 0 draw_poly_P draws nothing, whatever the table |
| Canvas.StrokeStops | cores/Cosa/api/Cosa/Canvas.cpp:203-221 | a table with a (0, 0) pair gives one segment per pair before it, a cursor move exactly for the pairs with both deltas at most zero, each line starting at the cursor left before it |
| Canvas.StrokeFrom | cores/Cosa/api/Cosa/Canvas.cpp:206-220 | a result of draw_stroke_P ends at the first (0, 0) pair from the start pair; a table without a (0, 0) pair makes it read past its end |
| CanvasScript.OpOf | cores/Cosa/api/Cosa/Canvas.cpp:403-489 | every call a script can make has an opcode the switch lists, other than END_SCRIPT and CALL_SCRIPT |
| CanvasScript.Encode | cores/Cosa/api/Cosa/Canvas.cpp:403-489 | an instruction is its opcode followed by as many operand bytes as that case of the switch reads |
| CanvasScript.DecodeEncode | cores/Cosa/api/Cosa/Canvas.cpp:403-489 | the interpreter reads an encoded instruction back as the same call, operands in order |
| CanvasScript.Run | cores/Cosa/api/Cosa/Canvas.cpp:390-402 | a run makes only calls whose table operand, in this script or any script it calls, is below max |
| CanvasScript.Exec | cores/Cosa/api/Cosa/Canvas.cpp:394-489 | the instruction loop makes only calls whose table operand is below max |
| CanvasScript.EncodeDecode | cores/Cosa/api/Cosa/Canvas.cpp:403-489 | the operand bytes a case of the switch reads make a call whose encoding is the opcode followed by those same bytes |
| CanvasScript.ReadsCall | cores/Cosa/api/Cosa/Canvas.cpp:394-489 | at the start of an encoded call the interpreter finds the call's opcode, a valid table operand, and reads exactly the call's bytes back as the call |
| CanvasScript.ExecPlain | cores/Cosa/api/Cosa/Canvas.cpp:403-489 | a known instruction other than END_SCRIPT and CALL_SCRIPT, with its operands in the code and a valid table operand, makes its call and continues right after its operands |
| CanvasScript.Assemble | cores/Cosa/api/Cosa/Canvas.cpp:394-395 | a script of calls has at least one byte per call |
| CanvasScript.StepCall | cores/Cosa/api/Cosa/Canvas.cpp:394-489 | an encoded call with a valid table operand makes that call and goes on right after its bytes |
| CanvasScript.AssembledRuns | cores/Cosa/api/Cosa/Canvas.cpp:390-494 | the assembled calls followed by END_SCRIPT make exactly those calls, in order, and end normally |
| CanvasScript.AssembledIsAt | cores/Cosa/api/Cosa/Canvas.cpp:394-397 | after any prefix, the assembled calls lie one after another and END_SCRIPT follows them |
| CanvasScript.AssembledRunsAt | cores/Cosa/api/Cosa/Canvas.cpp:394-489 | calls laid out from ip make exactly those calls and end at the END_SCRIPT after them |
| CanvasScript.StepThen | cores/Cosa/api/Cosa/Canvas.cpp:394-489 | a call in front of a script that makes the remaining calls makes all of them |
| CanvasScript.RunAssembled | cores/Cosa/api/Cosa/Canvas.cpp:390-394 | run of a table entry holding assembled calls and END_SCRIPT makes exactly those calls |
| CanvasScript.CallInlines | cores/Cosa/api/Cosa/Canvas.cpp:398-402 | CALL_SCRIPT makes the calls of the called entry and then continues with the caller after its operand |
| CanvasScript.BadOperandStops | cores/Cosa/api/Cosa/Canvas.cpp:398-484 | a table operand at or above max ends the script before the call, whatever follows |
| CanvasScript.EndAndUnknownStop | cores/Cosa/api/Cosa/Canvas.cpp:394-493 | END_SCRIPT and opcodes outside the switch end the script with no call |
| CanvasScript.RunOutOfTable | cores/Cosa/api/Cosa/Canvas.cpp:392 | run with ix at or above max does nothing |
| TWI.TerminalStates | cores/Cosa/api/Cosa/TWI.cpp:126 | await_completed stops waiting exactly in the error and idle states |
| TWI.DecodeCode | cores/Cosa/api/Cosa/TWI.cpp:176-177 | every named bus status survives encoding into the status register and decoding back |
| TWI.DecodeMasksPrescaler | cores/Cosa/api/Cosa/TWI.cpp:176 | the status decoded from TWSR ignores the three prescaler bits, and an unlisted code re-encodes to itself |
| TWI.MakeDriver | cores/Cosa/api/Cosa/TWI.cpp:71 | a driver stores its 7-bit address shifted left with bit 0 clear, so OR'ing in the read/write bit keeps the address |
| TWI.Init | cores/Cosa/api/Cosa/TWI.cpp:33 | the engine starts unbound, with no target, in the first state of the enumeration |
| TWI.BitRateDivisor | cores/Cosa/api/Cosa/TWI.cpp:48 | the 8-bit TWBR value is ((F_CPU / FREQ) - 16) / 2 whenever that fits, and 0 for a quotient of 15 |
| TWI.BitRateStandardMode | cores/Cosa/api/Cosa/TWI.cpp:48 | at 16 MHz and a 100 kHz bus the divisor is 72 |
| TWI.Begin | cores/Cosa/api/Cosa/TWI.cpp:35-52 | begin refuses and changes nothing while a driver is bound; otherwise it binds driver and target, enables the pull-ups, clears the prescaler, sets the bit rate and idles the bus |
| TWI.BeginTwice | cores/Cosa/api/Cosa/TWI.cpp:38-40 | a second begin without an end is refused and changes nothing |
| TWI.AwaitCompleted | cores/Cosa/api/Cosa/TWI.cpp:123-128 | await_completed returns the count exactly when the state is error or idle, and would go on sleeping otherwise |
| TWI.EndBus | cores/Cosa/api/Cosa/TWI.cpp:54-64 | end waits only when a target is set and the transfer is still running; otherwise it unbinds driver and target and disables the bus |
| TWI.EndThenBegin | cores/Cosa/api/Cosa/TWI.cpp:35-64 | after an end that completes, the bus can be bound again |
| TWI.Request | cores/Cosa/api/Cosa/TWI.cpp:66-80 | request selects the master receive state for a read and master transmit otherwise, ORs the op into the address, resets status, cursor, index and count, and issues START |
| TWI.WriteRequest | cores/Cosa/api/Cosa/TWI.cpp:82-89 | write_request lays out the vector [buf, end] and starts a master write to the bound device |
| TWI.WriteRequestHeader8 | cores/Cosa/api/Cosa/TWI.cpp:91-100 | write_request with a byte header lays out [header, buf, end] and starts a master write |
| TWI.WriteRequestHeader16 | cores/Cosa/api/Cosa/TWI.cpp:102-112 | write_request with a 16-bit header lays out [high byte, low byte; buf; end] and starts a master write |
| TWI.HeaderBytes | cores/Cosa/api/Cosa/TWI.cpp:106-107 | the two header bytes reassemble the 16-bit header |
| TWI.ReadRequest | cores/Cosa/api/Cosa/TWI.cpp:114-121 | read_request lays out [buf, end] and starts a master read with the read bit set |
| TWI.IsrStart | cores/Cosa/api/Cosa/TWI.cpp:130-141 | isr_start moves to the next vector entry keeping the count, or to a given entry with the count reset, with the cursor at the entry's start |
| TWI.Stopped | cores/Cosa/api/Cosa/TWI.cpp:146-151 | completion issues STOP and then, only with a target, one event |
| TWI.IsrStop | cores/Cosa/api/Cosa/TWI.cpp:143-152 | isr_stop issues STOP, forces the count to -1 in the error state, pushes the event only with a target, and leaves vector and cursor alone |
| TWI.IsrWrite | cores/Cosa/api/Cosa/TWI.cpp:154-162 | isr_write fails and does nothing exactly when the cursor is exhausted; otherwise it sends the byte under the cursor, advances and counts it |
| TWI.IsrRead | cores/Cosa/api/Cosa/TWI.cpp:164-172 | isr_read fails and does nothing exactly when the cursor is exhausted; otherwise it stores the received byte at the cursor, advances and counts it, issuing the command only when one is given |
| TWI.IsrReadKeepsOthers | cores/Cosa/api/Cosa/TWI.cpp:168 | isr_read writes only the entry under the cursor |
| TWI.StepFrame | cores/Cosa/api/Cosa/TWI.cpp:174-270 | every interrupt records its status in m_status; device, target, address byte and vector length never change, and only the receive statuses store into the vector |
| TWI.StepOutcome | cores/Cosa/api/Cosa/TWI.cpp:174-270 | every status but NO_INFO writes a register; ARB_LOST, an address NACK and BUS_ERROR end in ERROR with count -1, and no other status enters ERROR |
| TWI.MasterTransmitAckSpec | cores/Cosa/api/Cosa/TWI.cpp:197-203 | MT_SLA_ACK and MT_DATA_ACK send the next byte of the segment with DATA and count it; an exhausted segment chains to the next one, whose first byte is sent; with nothing left the write completes with STOP, IDLE and the count so far |
| TWI.MasterReceiveDataSpec | cores/Cosa/api/Cosa/TWI.cpp:211-215 | MR_DATA_ACK stores the byte under the cursor and counts it when there is room, then ACKs the next byte exactly when two or more bytes of room remain and NACKs it otherwise |
| TWI.MasterReceiveLastSpec | cores/Cosa/api/Cosa/TWI.cpp:216-219 | MR_DATA_NACK stores and counts the last byte when there is room, then completes the read with STOP, IDLE and the count |
| TWI.SlaveTransmitDataSpec | cores/Cosa/api/Cosa/TWI.cpp:230-233 | ST_DATA_ACK sends the next byte of the read buffer with ACK and counts it, or NACKs once the buffer is exhausted, changing nothing else |
| TWI.SlaveReceiveDataSpec | cores/Cosa/api/Cosa/TWI.cpp:250-256 | SR_DATA_ACK stores the byte under the cursor, counts it and ACKs, or NACKs once the write buffer is full, changing nothing else |
| TWI.SlaveStopSpec | cores/Cosa/api/Cosa/TWI.cpp:257-260 | SR_STOP completes the slave write with STOP, IDLE and the count, then clears the address match register |
| TWI.RunFrame | cores/Cosa/api/Cosa/TWI.cpp:174-270 | over any run of interrupts the device, target, address byte and vector length are kept, and each interrupt but NO_INFO adds to the trace |
| TWI.RunCons | cores/Cosa/api/Cosa/TWI.cpp:174-177 | each interrupt of a run is handled in turn, from the state the previous one left |
| TWI.ArbitrationLost | cores/Cosa/api/Cosa/TWI.cpp:187-192 | lost arbitration sets the error state and count -1 and releases the bus without STOP or event |
| TWI.AddressNack | cores/Cosa/api/Cosa/TWI.cpp:204-206 | an unacknowledged address in either master mode stops with error, count -1 and an error event when a target is set |
| TWI.BusErrorStep | cores/Cosa/api/Cosa/TWI.cpp:265-267 | a bus error stops with error and count -1 but pushes no event |
| TWI.DataNackCompletes | cores/Cosa/api/Cosa/TWI.cpp:201-203 | a NACKed data byte completes the write normally with the count kept |
| TWI.TransmitAckSendsNext | cores/Cosa/api/Cosa/TWI.cpp:197-200 | an ACK with bytes left sends exactly the next byte and counts it |
| TWI.TransmitAckChains | cores/Cosa/api/Cosa/TWI.cpp:197-200 | an ACK at the end of an entry chains to the next entry without resetting the count and sends its first byte |
| TWI.TransmitAckCompletes | cores/Cosa/api/Cosa/TWI.cpp:197-203 | an ACK with the next entry empty falls through to STOP and the write-completed event |
| TWI.ReceiveAck | cores/Cosa/api/Cosa/TWI.cpp:211-215 | a received byte is stored and counted, and the next one is ACKed exactly when two or more bytes of room remain |
| TWI.ReceiveLast | cores/Cosa/api/Cosa/TWI.cpp:216-219 | the NACKed last byte is stored and the read completes to idle with the read-completed event |
| TWI.SlaveReceiveStop | cores/Cosa/api/Cosa/TWI.cpp:257-260 | STOP after a slave reception completes the write with its count and clears the address match register |
| TWI.DataTrace | cores/Cosa/api/Cosa/TWI.cpp:158-159 | transmitting a byte string writes two registers per byte |
| TWI.DataTraceAt | cores/Cosa/api/Cosa/TWI.cpp:158-159 | byte i goes out as the 2i-th register write, followed by a DATA command |
| TWI.AckThenNack | cores/Cosa/api/Cosa/TWI.cpp:214 | a master receiver gives one decision per byte, the last a NACK |
| TWI.AckThenNackAt | cores/Cosa/api/Cosa/TWI.cpp:214 | every decision before the last is an ACK |
| TWI.TransmitAckClosedForm | cores/Cosa/api/Cosa/TWI.cpp:197-203 | the transmit ACK handler with its fall-throughs is exactly: next byte, else first byte of the next entry, else completion |
| TWI.StepTransmitAck | cores/Cosa/api/Cosa/TWI.cpp:197-198 | address and data ACKs are handled alike |
| TWI.RunTransmit | cores/Cosa/api/Cosa/TWI.cpp:174-203 | a run of transmit ACKs through the handler is the transmitter's closed-form run |
| TWI.TransmitInSegment | cores/Cosa/api/Cosa/TWI.cpp:199-200 | inside an entry the ACK sends the first pending byte |
| TWI.TransmitNextSegment | cores/Cosa/api/Cosa/TWI.cpp:199-200 | at the end of an entry the ACK sends the first byte of the next, non-empty one |
| TWI.TransmitNothingLeft | cores/Cosa/api/Cosa/TWI.cpp:199-203 | with nothing pending the ACK completes the write with the count unchanged |
| TWI.TransmitStep | cores/Cosa/api/Cosa/TWI.cpp:197-203 | one ACK sends the first pending byte or, with nothing pending, completes the write |
| TWI.TransmitRest | cores/Cosa/api/Cosa/TWI.cpp:197-203 | from any point of a master write, the ACKs send every pending byte in order, counting each, and the next ACK completes with the final count |
| TWI.TransmitCount | cores/Cosa/api/Cosa/TWI.cpp:197-203 | the state part of a transmission: the write ends idle with every pending byte counted |
| TWI.TransmitTrace | cores/Cosa/api/Cosa/TWI.cpp:197-203 | the register writes of a transmission: every pending byte with DATA in order, then STOP and the completion |
| TWI.TransmitTraceStep | cores/Cosa/api/Cosa/TWI.cpp:197-200 | with a byte pending, the first ACK sends it and the rest of the transmission follows |
| TWI.TransmitNone | cores/Cosa/api/Cosa/TWI.cpp:199-203 | with nothing pending the first ACK ends the write with STOP and the event |
| TWI.TransmitRunCons | cores/Cosa/api/Cosa/TWI.cpp:197-203 | a transmission of n bytes is one ACK followed by the transmission of n - 1 |
| TWI.StartStep | cores/Cosa/api/Cosa/TWI.cpp:181-186 | START sends the address with a DATA command and changes nothing but the status |
| TWI.WriteRun | cores/Cosa/api/Cosa/TWI.cpp:181-203 | the interrupts of a master write are START followed by the transmitter's run |
| TWI.WriteTransfer | cores/Cosa/api/Cosa/TWI.cpp:174-203 | a master write of p sends the address, then every byte of p in order, then STOP and the event with count equal to the length of p |
| TWI.PendingOne | cores/Cosa/api/Cosa/TWI.cpp:82-89 | the vector [buf, end] has exactly buf to send |
| TWI.PendingTwo | cores/Cosa/api/Cosa/TWI.cpp:91-100 | the vector [header, buf, end] has the header and then buf to send |
| TWI.WriteRequestSendsBuffer | cores/Cosa/api/Cosa/TWI.cpp:82-89 | write_request(buf) puts exactly the bytes of buf on the bus after the address and completes with the count equal to the length of buf |
| TWI.WriteRequestSendsHeader | cores/Cosa/api/Cosa/TWI.cpp:91-100 | write_request(header, buf) sends the header byte, then buf, and the count includes the header |
| TWI.WriteRequestSendsHeader16 | cores/Cosa/api/Cosa/TWI.cpp:102-112 | write_request with a 16-bit header sends its high byte, its low byte, then buf |
| TWI.ReceiveClosedForms | cores/Cosa/api/Cosa/TWI.cpp:211-219 | the receive handlers are exactly: store the byte if there is room, then decide or complete |
| TWI.RunReceive | cores/Cosa/api/Cosa/TWI.cpp:211-219 | a run of receive interrupts through the handler is the receiver's closed-form run |
| TWI.ReceiveDataStep | cores/Cosa/api/Cosa/TWI.cpp:211-215 | one ACKed byte is appended to what was received, counted, and followed by ACK exactly when two bytes of room remain |
| TWI.ReceiveDataDecision | cores/Cosa/api/Cosa/TWI.cpp:211-215 | the bus-visible part of one ACKed byte: the ACK/NACK decision and the count |
| TWI.ReceiveLastStep | cores/Cosa/api/Cosa/TWI.cpp:216-219 | the NACKed last byte fills the entry and the read completes with the event |
| TWI.ReceiveRest | cores/Cosa/api/Cosa/TWI.cpp:211-219 | from any point of a master read with exactly as much room as bytes to come, every byte is stored in order, all but the last ACKed, and the read completes with the event |
| TWI.ReceiveRestStores | cores/Cosa/api/Cosa/TWI.cpp:211-219 | the engine side of a read: every byte stored and counted, and the receiver idle |
| TWI.ReceiveRestTrace | cores/Cosa/api/Cosa/TWI.cpp:211-219 | the bus side of a read: ACK for every byte but the last, NACK, STOP and the event |
| TWI.ReceiveTraceStep | cores/Cosa/api/Cosa/TWI.cpp:211-215 | one ACKed byte in front of a known receive trace extends it by one ACK |
| TWI.RxDataTrace | cores/Cosa/api/Cosa/TWI.cpp:211-215 | with n bytes left to receive, the data step ACKs exactly when at least two more follow |
| TWI.ReceiveRunCons | cores/Cosa/api/Cosa/TWI.cpp:211-215 | a receive of two or more bytes starts with the data step of its first byte |
| TWI.ReadAddressStep | cores/Cosa/api/Cosa/TWI.cpp:213-215 | the address ACK of a master read only makes the first ACK/NACK decision |
| TWI.ReadTransfer | cores/Cosa/api/Cosa/TWI.cpp:174-219 | a master read of n >= 1 bytes from START fills the entry, ACKs all but the last and completes with the event |
| TWI.ReadTransferStore | cores/Cosa/api/Cosa/TWI.cpp:174-219 | a master read leaves the received bytes in the segment, ends idle and counts every byte |
| TWI.ReadTransferTrace | cores/Cosa/api/Cosa/TWI.cpp:174-219 | a master read writes the address with DATA, ACKs every byte but the last, NACKs the last, then STOP and READ_COMPLETED |
| TWI.ReadTraceGlue | cores/Cosa/api/Cosa/TWI.cpp:181-215 | the address, the address-ACK decision and the receiver's decisions make the whole read trace |
| TWI.ReadRun | cores/Cosa/api/Cosa/TWI.cpp:181-219 | the interrupts of a master read are START, the address ACK with its decision, and the receiver's run |
| TWI.ReadRequestFillsBuffer | cores/Cosa/api/Cosa/TWI.cpp:114-121 | read_request(buf) with a non-empty buf fills it with the received bytes, ACKing all but the last |
| TWI.SingleByteRead | cores/Cosa/api/Cosa/TWI.cpp:114-121 | a one-byte read NACKs its only byte straight after the address and completes with count 1 |
| TWI.SlaveBegin | cores/Cosa/api/Cosa/TWI.cpp:274-286 | Slave::begin binds the slave as driver and target unconditionally and arms the address match, prescaler, bit rate and idle command |
| TWI.SetWriteBuf | cores/Cosa/api/Cosa/TWI.cpp:298-303 | set_write_buf replaces the write entry and leaves the read entry alone; entries are held by value, so a buffer shared with the read entry does not alias |
| TWI.SetReadBuf | cores/Cosa/api/Cosa/TWI.cpp:305-310 | set_read_buf replaces the read entry and leaves the write entry alone; entries are held by value, so a buffer shared with the write entry does not alias |
| TWI.SlaveOnEvent | cores/Cosa/api/Cosa/TWI.cpp:288-296 | only a write-completed event is served: it hands the write buffer and the event value to on_request and re-arms the address match |
| TWI.RunSlave | cores/Cosa/api/Cosa/TWI.cpp:250-260 | a run of slave receive interrupts through the handler is the slave receiver's closed-form run |
| TWI.StepSlaveData | cores/Cosa/api/Cosa/TWI.cpp:250-252 | the handler serves a slave data byte by storing it with ACK |
| TWI.StepSlaveStop | cores/Cosa/api/Cosa/TWI.cpp:257-260 | the handler serves STOP by completing the slave write |
| TWI.SlaveDataStep | cores/Cosa/api/Cosa/TWI.cpp:250-252 | a slave data byte with room left is stored at the cursor, counted and ACKed |
| TWI.SlaveStopStep | cores/Cosa/api/Cosa/TWI.cpp:257-260 | STOP ends a slave reception: idle, count kept, buffers untouched, event and cleared address match |
| TWI.SlaveReceiveRest | cores/Cosa/api/Cosa/TWI.cpp:250-260 | a slave receiver with room stores the bytes at the cursor, ACKs each, and the STOP completes with the count |
| TWI.SlaveReceiveCount | cores/Cosa/api/Cosa/TWI.cpp:250-260 | a slave receive ends idle with every byte counted |
| TWI.SlaveReceiveStore | cores/Cosa/api/Cosa/TWI.cpp:250-252 | a slave receive stores the bytes at the cursor in order and keeps the rest of the segment |
| TWI.SlaveReceiveTrace | cores/Cosa/api/Cosa/TWI.cpp:250-260 | a slave receive ACKs every byte, then completes with STOP, the event and the cleared address match |
| TWI.SlaveStopTrace | cores/Cosa/api/Cosa/TWI.cpp:257-259 | with a target bound, the slave completion is STOP, the event and the cleared address match |
| TWI.SlaveReceiveOverflow | cores/Cosa/api/Cosa/TWI.cpp:250-256 | with its buffer full a slave NACKs the byte and keeps count and buffers |
| TWI.SlaveReceivesWrite | cores/Cosa/api/Cosa/TWI.cpp:243-310 | after Slave::begin and set_write_buf, a master writing no more bytes than the buffer holds puts them at its front, every byte and the address ACKed, then the event with the byte count |
| TWI.SlaveWrite | cores/Cosa/api/Cosa/TWI.cpp:243-260 | a write to a slave with a target, from address match to STOP, stores the bytes at the front of the write buffer and reports their count |
| TWI.SlaveWriteRun | cores/Cosa/api/Cosa/TWI.cpp:243-249 | the interrupts of a slave write are the address match followed by the receiver's run from the front of the write buffer |
| TWI.SlaveAddressStep | cores/Cosa/api/Cosa/TWI.cpp:243-249 | an address match ACKs and places the cursor at the front of the write buffer with the count reset |
| TWI.SlaveSendRest | cores/Cosa/api/Cosa/TWI.cpp:230-238 | a slave transmitter with n bytes left sends them in order, each with ACK, counting each, and the master's NACK returns it to idle |
| TWI.RunSend | cores/Cosa/api/Cosa/TWI.cpp:230-238 | n data ACKs and the master's NACK are n data steps and the idle ACK, in order |
| TWI.SendState | cores/Cosa/api/Cosa/TWI.cpp:230-238 | a slave transmission ends idle with n more bytes counted and the vector kept |
| TWI.SendTrace | cores/Cosa/api/Cosa/TWI.cpp:230-238 | a slave transmission writes the n bytes at the cursor, each with ACK, then the final ACK |
| TWI.SlaveSendStep | cores/Cosa/api/Cosa/TWI.cpp:230-231 | ST_DATA_ACK with a byte left sends it with ACK and moves the cursor past it |
| TWI.SlaveRead | cores/Cosa/api/Cosa/TWI.cpp:227-238 | a master reading n >= 1 bytes from a slave gets the first n bytes of its read buffer, each sent with ACK, and the transfer ends idle with count n |
| TWI.RunRead | cores/Cosa/api/Cosa/TWI.cpp:227-238 | a slave read is the address match, which sends the first byte, followed by the sending run |
| TWI.ReadSend | cores/Cosa/api/Cosa/TWI.cpp:227-238 | after the address match and the sending run the slave is idle with count n and has written the n bytes, each with ACK, then the final ACK |
| TWI.SlaveReadEmpty | cores/Cosa/api/Cosa/TWI.cpp:227-233 | with an empty read buffer the address match is NACKed and nothing is sent |
| PiGpio.PinNumber | cores/RaspberryPi/api/GPIO.cpp:22-24 | a board pin maps to NOT_A_PIN or to a GPIO line of the chip |
| PiGpio.Unpack | cores/RaspberryPi/api/Registers.h:4-21 | a GPFSEL word splits into ten 3-bit function fields and two reserved bits |
| PiGpio.PackUnpack | cores/RaspberryPi/api/Registers.h:4-21 | the fields cover the whole 32-bit register: splitting and re-packing a word gives it back |
| PiGpio.UnpackPack | cores/RaspberryPi/api/Registers.h:4-21 | the fields do not overlap: packing fields and splitting the word gives them back |
| PiGpio.LowFields | cores/RaspberryPi/api/Registers.h:8-12 | fields 0 to 4 read back from the packed word |
| PiGpio.HighFields | cores/RaspberryPi/api/Registers.h:13-18 | fields 5 to 9 and the reserved bits read back from the packed word |
| PiGpio.FieldsOfPacked | cores/RaspberryPi/api/Registers.h:8-18 | field k occupies bits 3k to 3k + 2 and the reserved bits are bits 30 and 31 |
| PiGpio.Apply | cores/RaspberryPi/api/Registers.h:23-30 | a store keeps the register file well formed |
| PiGpio.ApplyAll | cores/RaspberryPi/api/Registers.h:23-30 | a run of stores keeps the register file well formed |
| PiGpio.ApplyOne | cores/RaspberryPi/api/Registers.h:23-30 | a run of one store is that store |
| PiGpio.ApplyTwo | cores/RaspberryPi/api/Registers.h:23-30 | a run of two stores is the one then the other |
| PiGpio.SelectFunction | cores/RaspberryPi/api/GPIO.cpp:21-91 | pins outside the table and unmapped pins get no store; otherwise the same field of one of the six GPFSEL registers is written 0 and then func & 7 |
| PiGpio.DistinctSlots | cores/RaspberryPi/api/GPIO.cpp:26-27 | two GPIO lines in the same bank have different slots |
| PiGpio.SelectFunctionSelects | cores/RaspberryPi/api/GPIO.cpp:21-91 | afterwards the pin reads back func & 7, every pin on another GPIO line keeps its function, and levels are unchanged; an ignored pin changes nothing |
| PiGpio.PinMode | cores/RaspberryPi/api/GPIO.cpp:93-102 | OUTPUT and INPUT select the output and input functions; every other mode stores nothing |
| PiGpio.PinModeSelects | cores/RaspberryPi/api/GPIO.cpp:93-102 | a mapped pin set to OUTPUT or INPUT reads back FSEL_OUTP or FSEL_INPT, and any other mode leaves the registers as they were |
| PiGpio.DigitalWrite | cores/RaspberryPi/api/GPIO.cpp:104-118 | an ignored pin gets no store; otherwise exactly one store, into GPCLR exactly for LOW, whose bank times 32 plus its bit (below 32) is the pin's GPIO line g: bit g % 32 of bank g / 32 |
| PiGpio.DigitalRead | cores/RaspberryPi/api/GPIO.cpp:120-129 | the result is LOW or HIGH, and LOW for an ignored pin |
| PiGpio.WriteThenRead | cores/RaspberryPi/api/GPIO.cpp:104-129 | a pin reads back LOW after a LOW write and HIGH after any other level, and pins on other GPIO lines read as before |
| PiGpio.BitIndex | cores/RaspberryPi/api/GPIO.cpp:138-141 | the bit of step i is a bit position of a byte |
| PiGpio.IndexDistinct | cores/RaspberryPi/api/GPIO.cpp:138-154 | in either bit order, distinct steps address distinct bits |
| PiGpio.ShiftOut | cores/RaspberryPi/api/GPIO.cpp:147-159 | shiftOut makes 24 calls: for each of the eight bits, the data write followed by the clock HIGH then LOW |
| PiGpio.ShiftOutUpTo | cores/RaspberryPi/api/GPIO.cpp:150-158 | n steps of shiftOut make three calls each |
| PiGpio.ShiftOutSteps | cores/RaspberryPi/api/GPIO.cpp:150-158 | step j of shiftOut occupies calls 3j to 3j + 2: the data bit, clock HIGH, clock LOW |
| PiGpio.InSteps | cores/RaspberryPi/api/GPIO.cpp:136-143 | n steps of shiftIn make three calls each |
| PiGpio.ShiftIn | cores/RaspberryPi/api/GPIO.cpp:132-145 | bit i (LSBFIRST) or bit 7 - i (otherwise) of the result is set exactly when read i was HIGH, with each read between clock HIGH and clock LOW |
| PiGpio.AssembleStep | cores/RaspberryPi/api/GPIO.cpp:138-141 | one step of shiftIn puts the bit of its read in place and keeps the bits already assembled |
| PiGpio.AssembleBit | cores/RaspberryPi/api/GPIO.cpp:138-141 | or-ing in the bit of step i changes the bit of step i only |
| PiGpio.DataLevels | cores/RaspberryPi/api/GPIO.cpp:151-154 | the levels on the data pin of a shiftOut are eight |
| PiGpio.ShiftOutLevels | cores/RaspberryPi/api/GPIO.cpp:147-159 | shiftOut puts bit i (LSBFIRST) or bit 7 - i (otherwise) of the value on the data pin at step i |
| PiGpio.ShiftOutLevel | cores/RaspberryPi/api/GPIO.cpp:151-154 | the data level of step i of shiftOut is the bit of that step |
| PiGpio.ShiftRoundTrip | cores/RaspberryPi/api/GPIO.cpp:132-159 | shiftIn over the levels shiftOut put on the data pin, in the same bit order, returns the value sent |
| PiPwm.Create | cores/RaspberryPi/api/PWM.cpp:11-16 | the constructor leaves every pin out of PWM (duty -1) at phase 0 |
| PiPwm.AnalogWrite | cores/RaspberryPi/api/PWM.cpp:22-31 | an unmapped pin changes nothing; otherwise the pin is made an output and only its duty becomes val, the phase kept |
| PiPwm.Release | cores/RaspberryPi/api/PWM.cpp:33-46 | an unmapped pin or one out of PWM changes nothing; otherwise only its duty becomes -1 and it is driven LOW |
| PiPwm.ReleaseUndoesWrite | cores/RaspberryPi/api/PWM.cpp:22-46 | release after analogWrite takes the pin out of PWM again with one LOW write, and a second release does nothing |
| PiPwm.PinLevel | cores/RaspberryPi/api/PWM.cpp:49-61 | a pin gets a level only when it is under PWM; between phase 0 and its duty it is left alone, and from its duty on it is driven LOW |
| PiPwm.PinLevelAsWritten | cores/RaspberryPi/api/PWM.cpp:49-61 | the written test agrees with PinLevel for every pin under PWM, and drives a pin out of PWM (duty -1) LOW at every phase after 0 |
| PiPwm.Sweep | cores/RaspberryPi/api/PWM.cpp:50-60 | the sweep from pin i writes each pin at most once |
| PiPwm.SweepSpec | cores/RaspberryPi/api/PWM.cpp:49-61 | the sweep of process writes pins in increasing order, each exactly with the level its duty gives at the phase |
| PiPwm.SweepShape | cores/RaspberryPi/api/PWM.cpp:50-60 | the sweep writes only pins from i on, in strictly increasing order |
| PiPwm.SweepMembers | cores/RaspberryPi/api/PWM.cpp:50-60 | the sweep writes pin k with level l exactly when its duty gives it l at the phase |
| PiPwm.MinGap | cores/RaspberryPi/api/PWM.cpp:63-68 | the scan keeps the smallest distance from the phase to a duty above it, never above the starting bound, and that distance is the bound or is attained by some pin |
| PiPwm.Gap | cores/RaspberryPi/api/PWM.cpp:63-68 | the step is at least 1 and at most the rest of the cycle, no duty above the phase is nearer, and it reaches either the end of the cycle or some duty |
| PiPwm.NextPhase | cores/RaspberryPi/api/PWM.cpp:70-73 | the next phase stays inside the cycle and is past the current one unless it wraps to 0 |
| PiPwm.Process | cores/RaspberryPi/api/PWM.cpp:48-74 | process keeps the duties, advances the phase by the step, sleeps ten microseconds per tick of the step, and its writes are the corrected sweep |
| PiPwm.ProcessAsWritten | cores/RaspberryPi/api/PWM.cpp:48-74 | process as written has the same next state and sleep, and its writes are the sweep that also drives pins out of PWM LOW |
| PiPwm.AsWrittenDrivesOffPins | cores/RaspberryPi/api/PWM.cpp:56-59 | as written, with pin 0 out of PWM and pin 1 at duty 128, process at phase 5 drives pin 0 LOW |
| PiPwm.OffPinsUntouched | cores/RaspberryPi/api/PWM.cpp:49-61 | the corrected process never writes a pin that is out of PWM |
| PiPwm.Visits | cores/RaspberryPi/api/PWM.cpp:63-73 | a cycle starts at the given phase |
| PiPwm.NoDutySkipped | cores/RaspberryPi/api/PWM.cpp:63-73 | every duty between the phase and the end of the cycle is a phase process runs at, so no pin is driven LOW late |
| PiPwm.VisitsIncrease | cores/RaspberryPi/api/PWM.cpp:63-73 | the phases a cycle runs at strictly increase and stay inside the cycle |
| PiPwm.CycleLength | cores/RaspberryPi/api/PWM.cpp:63-73 | whatever the duties, the steps from a phase add up to the rest of the 255-tick cycle |
| PiPwm.TicksToDuty | cores/RaspberryPi/api/PWM.cpp:63-73 | the phase reaches a duty v after exactly v minus the phase ticks |
| PiPwm.DutyCycle | cores/RaspberryPi/api/PWM.cpp:48-74 | a pin at duty v goes HIGH at phase 0 (LOW for v = 0), is left alone until phase v, is driven LOW from then on, and the cycle lasts 255 ticks |

## Left out

- TWI: the interrupt and foreground run concurrently in the source. The `synchronized` blocks, the sleep loop of `await_completed` and the wait for the STOP bit in `isr_stop` are left out. The interrupt handler is a step function, and `TWI.AwaitCompleted` returns the count once the state is terminal and nothing while the loop would sleep.
- TWI: TWI.hh is not part of this model. The state enumeration is assumed to run error, idle, master transmit, master receive, slave transmit, slave receive; `await_completed` depends on that order. The status codes are the ATmega TWSR values. The command register values are symbolic. `TWI.Init` assumes the object's storage starts zeroed, so the state starts as the first enumerator. `TWI.BitRateDivisor` computes in signed long arithmetic, which assumes FREQ is a signed type. With an unsigned 32-bit FREQ the difference would wrap: a quotient of 15 would give 255 rather than 0.
- TWI: buffers are held by value. The vector entries are byte sequences, not pointers, so one buffer set as both the write and the read buffer does not alias. VLCD.hh:94-95 does that with `m_buf`. In the source, a master write to the slave, or the reply `on_request` builds in that buffer, changes what the next master read returns. In the model, `TWI.SetWriteBuf` and `TWI.SetReadBuf` replace their own entry only, and a slave reception leaves the read entry as it was.
- TWI: register writes (TWCR, TWDR, TWAR, TWBR, the pull-ups and the prescaler) and `Event::push` are trace entries. `TWI.Begin` and `TWI.SlaveBegin` take the bit-rate byte as a parameter; `TWI.BitRateDivisor` states how it is computed.
- TWI.EndBus: the wait of `end` is reported as blocked rather than modelled as sleeping until the interrupt completes the transfer.
- UsiTwi: the bus bit-banging of the USI driver (start, transfer and stop conditions) is not part of this model; only the cursor the handlers use is.
- UsiTwi.Put: requires the cursor before m_last. The interrupt handler that calls `put` is not part of this model, and is assumed to stop once `put` has answered false. A `put` at m_last writes one byte past the buffer; `UsiTwi.PutAsWritten` reports that store as None. The run lemmas (`PutAll`, `PutAllWrites`, `PutThenGet`) are stated for puts that fit.
- RC4: the stream generation (`encrypt`, `decrypt`) is declared in RC4.hh, which is not part of this model.
- VirtualWireCodec: VirtualWireCodec.hh is not part of this model. SYMBOL_MASK is taken as 0x3f, the six bits of a symbol.
- HD44780: all `DELAY` and `SLEEP` timing of the LCD drivers is left out.
- HD44780 setup: the adapters' `setup` only reports the interface width. MJKDZ and SR3W return false (4-bit); MJKDZ also makes the expander pins outputs through PCF8574, which is not part of this model. ERM1602-5 returns true (8-bit). The write functions are modelled for the width each adapter reports.
- HD44780Erm1602: the receiver the adapter's stream is proved against is a model of the display module's serial interface, assumed from the instruction sequence the adapter sends.
- HD44780Sr3w: the receiver the Write*Delivers lemmas are proved against is a model of the shift register driving the HD44780, assumed from the pin sequence the adapter sends; the HD44780 side is not modelled.
- HD44780Mjkdz: the receiver the Write*Delivers lemmas are proved against is a model of the PCF8574 expander driving the HD44780, assumed from the port values the adapter writes; the HD44780 side is not modelled.
- VLCD: `begin` (the INIT_CMD write, then reading the slave's information with retries) and `end` (display off) are not modelled separately. LCD.hh is not part of this model; the tab step is assumed positive.
- Canvas: the circle and round-rectangle routines, `draw_icon`, `draw_char` and fonts are left out. They depend on Font and on signed and unsigned wrap-around beyond the operations modelled.
- Canvas.DrawLine: requires the normalised end coordinate below 255. When it is 255 the source's uint8_t loop counter can never exceed it, so `draw_line` never returns; the model does not represent a loop that never ends.
- Canvas.DrawHorizontalLine: states the pixels only when `x + length` does not wrap past 255; with wrap-around the pixels are those of `Canvas.DrawLine` to the wrapped end.
- Canvas.DrawVerticalLine: states the pixels only when `y + length` does not wrap past 255, as for the horizontal line.
- Canvas.DrawRect: requires the rectangle to end below 255 in both directions. With wrap-around the four edges are still drawn by `draw_line`, but the outline is not a rectangle.
- Canvas.DrawBitmap: requires the bitmap to hold width times ceil(height / 8) bytes. The source reads program memory past a shorter bitmap.
- CanvasScript: Canvas.hh is not part of this model. The opcodes are numbered in the order of the interpreter's switch. Several `pgm_read_byte(ip++)` arguments to one call are taken to be read left to right, an order C++ leaves unspecified. Reading past the end of a script and nesting CALL_SCRIPT deeper than a fuel bound are outcomes of their own. The source has no such bound: it would recurse until the stack overflows.
- OffScreen: COUNT is WIDTH times HEIGHT divided by 8, rounded down. The pixel properties are stated for heights that are a whole number of 8-row pages, where every pixel has its byte.
- PinChange: PinChangeInterrupt.hh and the Board headers are not part of this model. The board pin of each port bit is assumed: on the Standard board port B is pins 8 .. 13, port C pins 14 .. 19 and port D pins 0 .. 7; on the Mega the two dispatched ports are pins 16 .. 23 and 64 .. 71. `begin`/`end` (the PCICR setup and the initial port reads) are left out. The port reading is a parameter of the interrupt. The TinyX61 handler selection is left out.
- IRReceiver: IR.hh is not part of this model. Attaching the watchdog is an effect flag. The `disable`/`detach` at completion and `enable` on reset are not modelled.
- IRReceiver.FeedPrefix: the partial code m_code is an unbounded `nat`, because its declared width is in IR.hh, which is not part of this model. The completed value is reduced to 16 bits, the width of the event value, and that is exact for any m_code of at least 16 bits.
- IRReceiver.OnInterrupt: a stored sample is the full 32-bit period, because the sample buffer's element width is in IR.hh; a narrower buffer would truncate it.
- Touch: `RTC::since` is taken as the 32-bit wrap-around difference of milliseconds. The Watchdog attach in the constructor is left out.
- Canvas.PolyFrom / Canvas.StrokeFrom: Canvas.hh is not part of this model. Both assume that `draw_line(x, y)` draws from the cursor to (x, y) and leaves the cursor there, that `get_cursor` reads the cursor, and that `move_cursor` adds its int8_t deltas to it.
- Rotary: the dial's value type T is an unbounded integer, so overflow of a narrow T is not modelled.
- PiGpio: `raspberryPinNumber` is a board table lookup, NOT_A_PIN outside the table. GPLEV is taken to follow the GPSET and GPCLR stores. `begin`, `sync_peripheral`, the memory mapping, `pulseIn` and the event-detect registers are left out.
- PiPwm: the `begin` thread and `delayMicroseconds` are left out. The delay is returned as a number of microseconds. `pinMode` is recorded as a single action.

## Findings

| source | as written | input that shows it | evidently intended | confidence | as-written member | corrected member |
|---|---|---|---|---|---|---|
| cores/Cosa/api/Cosa/USI/TWI.hh:232 | `set_buf` rejects only ix > VEC_MAX | ix = VEC_MAX = 4 passes the guard and reads m_vec[4], one entry past the vector | reject ix >= VEC_MAX | high, not executed | UsiTwi.SetBufAsWritten, UsiTwi.SetBufAdmitsVecMax | UsiTwi.SetBuf, UsiTwi.SetBufAgrees |
| cores/Cosa/api/Cosa/IOBuffer.hh:155 | `getchar` returns the stored `char` sign-extended | putchar(-1) returns 255 (line 136), then getchar returns -1, which is EOF | return the byte masked with 0xff, as `putchar` does | high, not executed | IOBuffer.Getchar, IOBuffer.GetcharReturnsEofForFF | IOBuffer.GetcharMasked, IOBuffer.GetcharMaskedEchoesPutchar, IOBuffer.FifoReplayMasked |
| cores/Cosa/api/Cosa/BitSet.hh:42 | SET_MAX is (N + 4) / 8, rounding to the nearest byte count | N = 10 gets one byte, but index 9 lives in byte 1 | (N + 7) / 8, rounding up | high, not executed | BitSet.SetMaxAsWritten, BitSet.SetMaxAsWrittenShort, BitSet.LastIndexOverflows, BitSet.TenMembersOneByte | BitSet.SetMax, BitSet.SetMaxCovers |
| cores/Cosa/api/Cosa/LCD/Driver/VLCD.cpp:34-35 | the first byte is read as a signed `char` and compared with COMMAND = 255 | the frame [255, 0] reads as c = -1, which differs from 255, so the command prefix is printed as text | compare the unsigned byte with COMMAND | high, not executed | VLCD.OnRequestAsWritten, VLCD.AsWrittenForwardsAll, VLCD.CommandFrameIsText | VLCD.OnRequest, VLCD.CommandRoundTrip |
| cores/Cosa/api/Cosa/Canvas/OffScreen.hh:81 | `draw_pixel` rejects only x > WIDTH or y > HEIGHT | on an 8 by 8 screen, x = 8, y = 7 writes byte 8 of an 8-byte bitmap | reject x >= WIDTH or y >= HEIGHT | high, not executed | OffScreen.DrawPixelAsWritten, OffScreen.DrawPixelOverflows | OffScreen.DrawPixel, OffScreen.DrawPixelAgrees |
| cores/Cosa/api/Cosa/Canvas/OffScreen.hh:96 | `fill_screen` memsets the bitmap with the boolean (colour == BLACK) | a black fill stores 1 in every byte, setting only row 0 of each 8-row page | 0xff for black and 0 otherwise | high, not executed | OffScreen.FillScreenAsWritten, OffScreen.FillScreenBlackIsStriped, OffScreen.BeginAsWritten, OffScreen.BeginAsWrittenStriped | OffScreen.FillScreen, OffScreen.FillScreenColours, OffScreen.Begin, OffScreen.BeginColours |
| cores/RaspberryPi/api/PWM.cpp:57 | after phase 0, every pin with duty <= phase is driven LOW | two digital pins mapped to GPIO 18 and 23, pin 0 released (duty -1) and pin 1 at duty 128: process at phase 5 drives pin 0 LOW although it is not under PWM | skip pins whose duty is -1, as the phase-0 sweep does | high, not executed | PiPwm.PinLevelAsWritten, PiPwm.ProcessAsWritten, PiPwm.AsWrittenDrivesOffPins | PiPwm.PinLevel, PiPwm.Process, PiPwm.OffPinsUntouched |
| cores/Cosa/api/Cosa/PinChangeInterrupt.cpp:103 | `on_interrupt` reads the slots from pcint << 3, while `enable` stores a pin at its own number; the Standard board's port C vector is `PCINT_ISR(1, 2, 14)` | with A0 (pin 14) and A2 (pin 16) enabled, a change of A0 alone calls the handler in slot 16, which is A2's; changes of A4 and A5 read slots 20 and 21 | dispatch from the slot of the port's first pin (the base argument) | high, not executed | PinChange.OnInterrupt, PinChange.BoardBases, PinChange.StandardA0CallsA2 | PinChange.OnVector, PinChange.VectorFires |

The rest of the model builds on the corrected members. In particular,
`BitSet.Valid` fixes the storage length at the corrected `SetMax(N)`,
so every BitSet operation in the "## Model" table is stated over storage of
ceil(N / 8) bytes, not the (N + 4) / 8 bytes of BitSet.hh:42.
