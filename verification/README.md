# SerialComm, modelled in Dafny

`SerialComm` is a small protocol engine for Arduino boards. It shares application variables
with a peer over a serial `Stream`:

- The application registers each variable in a fixed-capacity table. The variable's id is its
  index in that table.
- `send(id)` and `send()` report variables as frames `[0xF3][id][length][payload]`.
- `update(timeout)` waits for input for up to `timeout` ms. It then drains what arrived:
  - a request `[0xF2][id]` is answered with `send(id)`;
  - a value report is read and dropped;
  - any other byte is skipped.
- `connect()` runs a two-phase handshake with `0xF0` (connection request) and `0xF1`
  (acknowledgement).
- `delay(timeout)` runs an update and then idles for whatever is left of `timeout`.

The project has four modules:

- `Wire` (`wire.dfy`) holds the command bytes and the frame datatype. It also has:
  - the encoder;
  - the decoder that `update`'s loop amounts to;
  - the reply stream `update` produces;
  - the acknowledgement rule of `connect`.
- `Timing` (`timing.dfy`) holds the 32-bit `millis()` arithmetic. It also has:
  - when `update`'s first wait ends;
  - the idle period and total duration of `delay`;
  - how many probes `connect` sends.
- `Transport` (`transport.dfy`) is a stand-in for the Arduino `Stream` and clock. It holds:
  - the bytes still to be read, and the millisecond at which they become readable;
  - the bytes written so far;
  - the current time and the read timeout.
- `Comm` (`serialcomm.dfy`) is the `SerialComm` class. Its table is an `array` of slots and its
  use counter is a field. The methods `update`, `send()` and `connect` keep the source's loops.

Each method's `ensures` ties the new stream state to a specification function of the old state
(`Replies`, `EncodeAll`, `WaitEnd`, `Paced`, `ProbeCount`, `AckFor`). The lemmas in `Wire` and
`Timing` prove what those functions mean.

## Model

| member | source | states |
|---|---|---|
| Comm.SerialComm.constructor | serialcomm.cpp:30-36 | the table has capacity `varCount`, no entry is registered, every entry reports nothing, and the stream's read timeout becomes 1000 ms |
| Comm.SerialComm.RegisterSlot | serialcomm.cpp:24-28 | the entry at the old use count is set to the given bytes and length, the count grows by exactly one, and every other entry is unchanged |
| Comm.SerialComm.RegisterVar | serialcomm.cpp:40-47 | on a table with room: returns the old use count as the id, stores the variable (with `sizeof` truncated to 8 bits) at that index, and appends it to the registered entries; on a full table: returns the capacity and changes nothing; the count never exceeds the capacity |
| Comm.RegistryFillsInOrder | serialcomm.cpp:40-47 | in a table of capacity two, successive registrations get ids 0 and 1, and a third gets the capacity 2 |
| Comm.SerialComm.Send | serialcomm.cpp:69-76 | appends exactly the report of entry `id` when `id` is below the capacity, and nothing otherwise; input, clock and table are untouched |
| Comm.SerialComm.SendAll | serialcomm.cpp:78-85 | appends the reports of entries 0 … capacity-1, in id order, and nothing else |
| Comm.SerialComm.AwaitInput | serialcomm.cpp:89-93 | the first wait of `update` ends exactly at `WaitEnd`: when input is readable or when `timeout` ms have elapsed on the wrapping clock, whichever is first; input is readable afterwards if and only if it arrived in time |
| Comm.SerialComm.Drain | serialcomm.cpp:94-111 | when input is readable, all of it is consumed and the output grows by exactly the replies to the requests among its decoded frames; a report cut short costs one read timeout; when no input is readable nothing changes |
| Comm.SerialComm.Update | serialcomm.cpp:88-112 | when input arrives within `timeout`, all of it is consumed and the output grows by the replies to its frames; otherwise input and output are unchanged; it returns at `UpdateEnd`; only the stream changes, never the table |
| Comm.SerialComm.Delay | serialcomm.cpp:114-121 | the same input/output effect as `update`, and it returns `Paced` ms after it began |
| Comm.SerialComm.Connect | serialcomm.cpp:49-67 | sends `ProbeCount` connection requests, one every 1000 ms, until input is readable; then consumes input up to and including the first `0xF1` and no further; after the requests it writes one `0xF1` exactly when a `0xF0` was read before that point, and nothing else |
| Comm.SerialComm.Probe | serialcomm.cpp:51-54 | writes exactly `ProbeCount` connection requests, idling 1000 ms after each, and stops at the first idle after which input is readable |
| Comm.SerialComm.AwaitReply | serialcomm.cpp:56-66 | consumes input up to and including the first `0xF1` and no further, and writes `0xF1` once exactly when a `0xF0` came before it |
| Comm.SerialComm.WriteEntry | serialcomm.cpp:71-74 | the four writes shared by `send(id)` and `send()` (also :80-83) append exactly the report frame of entry `id`, and nothing else in the stream changes |
| Comm.UpdateEnd | serialcomm.cpp:88-112 | `update` ends no earlier than it started, and no later than `timeout` plus one read timeout after it |
| Comm.CutShortAppend | serialcomm.cpp:108-109 | a run of frames holds a cut-short report if and only if one of its parts does |
| Transport.Stream.constructor | serialcomm.cpp:19 | a stream with the given pending input, arrival time and clock, an empty output and the default timeout |
| Transport.Stream.Available | serialcomm.cpp:90 | `available()` (also at :54, :59 and :94): a byte can be read exactly when input is pending and has arrived; a predicate with no `ensures` of its own |
| Transport.Stream.Millis | serialcomm.cpp:89 | `millis()` (also at :91, :115 and :117): the current time reduced to 32 bits, as `Timing.Millis` states |
| Transport.Stream.SetTimeout | serialcomm.cpp:32 | sets the read timeout and nothing else |
| Transport.Stream.Read | serialcomm.cpp:60 | returns the first pending byte and removes exactly it |
| Transport.Stream.ReadBytes | serialcomm.cpp:109 | takes `n` bytes when that many are pending; otherwise takes all of them and the read timeout elapses |
| Transport.Stream.Write | serialcomm.cpp:62 | appends one byte to the output |
| Transport.Stream.WriteBytes | serialcomm.cpp:74 | appends the given bytes to the output |
| Transport.Stream.Wait | serialcomm.cpp:53 | the idle action: exactly `ms` milliseconds pass and nothing else changes |
| Wire.Encode | serialcomm.cpp:71-74 | a frame's bytes are never empty |
| Wire.EncodeAll | serialcomm.cpp:79-84 | the bytes of a run of frames one after another, as `send()` writes them; it has no `ensures` of its own, and `Wire.EncodeAllAppend`, `Wire.DecodeEncode` and `Wire.SendAllIsEachSend` state what it means |
| Wire.EncodeAllAppend | serialcomm.cpp:79-84 | encoding a concatenation of frames concatenates their encodings |
| Wire.SentPrefix | serialcomm.cpp:79-84 | after one more loop step of `send()`, the output holds the encodings of one more report |
| Wire.Decode | serialcomm.cpp:94-111 | the framing that `update`'s loop applies to input that has arrived in full, or none when the input ends inside a request or report header; it has no `ensures` of its own, and `Wire.DecodeSound`, `Wire.DecodeEncode` and `Wire.DecodeShape` state what it means |
| Wire.DecodeSound | serialcomm.cpp:94-111 | the frames `update` cuts its input into encode back to exactly that input, so it drops and invents no byte |
| Wire.DecodeShape | serialcomm.cpp:102-110 | every decoded frame is one a sender could produce in full, except that the last may be a report whose payload ran out |
| Wire.DecodeEncode | serialcomm.cpp:94-111 | decoding the bytes of well-formed frames gives exactly those frames back |
| Wire.DecodeRequest | serialcomm.cpp:97-101 | a decodable input starting with `0xF2` has an id byte, and its first frame is that request |
| Wire.DecodeReport | serialcomm.cpp:102-110 | a decodable input starting with `0xF3` has a full header; its first frame takes `length` payload bytes, or all that remain when fewer do |
| Wire.DecodeOther | serialcomm.cpp:94-96 | any other first byte is a frame on its own, and decoding continues right after it |
| Wire.DrainStep | serialcomm.cpp:94-111 | taking one frame off the front of the input extends the frames decoded so far by that frame |
| Wire.RequestKeepsAlignment | serialcomm.cpp:97-101 | a request consumes exactly its two bytes, and decoding resumes at the next byte |
| Wire.ReportKeepsAlignment | serialcomm.cpp:102-110 | a report consumes exactly 3 + length bytes, and decoding resumes at the next frame's command byte |
| Wire.OtherKeepsAlignment | serialcomm.cpp:94-96 | a byte other than `0xF2` and `0xF3` consumes only itself |
| Wire.Reply | serialcomm.cpp:69-76 | for an id below the capacity: `[0xF3, id, length]` followed by exactly that slot's bytes, 3 + length in all; otherwise no bytes |
| Wire.Replies | serialcomm.cpp:97-101 | what `update` writes for a run of decoded frames: the `send(id)` output of each request in turn, and nothing for other frames; it has no `ensures` of its own, and `Wire.RepliesAreAnswers` and `Wire.RepliesDecode` state what it means |
| Wire.RepliesAppend | serialcomm.cpp:97-101 | the replies to one more frame extend the replies so far by that frame's reply |
| Wire.RepliedPrefix | serialcomm.cpp:97-101 | after one more loop step of `update`, the output holds the replies to one more frame |
| Wire.RepliesAreAnswers | serialcomm.cpp:97-101 | the reply stream is the encoding of one whole report per in-range request, and nothing for other frames |
| Wire.RepliesDecode | serialcomm.cpp:97-101 | the peer decodes the reply stream back into exactly those reports |
| Wire.AllReports | serialcomm.cpp:78-85 | one report per slot, the i-th for id i with that slot's bytes |
| Wire.AllRequests | serialcomm.cpp:69-70 | the requests for ids 0 … n-1, in order |
| Wire.SendAllIsEachSend | serialcomm.cpp:69-85 | `send()` writes the same bytes as `send(0)`, `send(1)`, … in turn, and the peer decodes them into those reports |
| Wire.AnsweredAll | serialcomm.cpp:78-85 | the answers to the requests for ids k … are the reports of the slots from k on |
| Wire.IndexOf | serialcomm.cpp:58-66 | the position of the first `0xF1`: it holds that byte and no earlier position does |
| Wire.IndexOfUnique | serialcomm.cpp:58-66 | a position holding `0xF1` with none before it is the first one |
| Wire.AckFor | serialcomm.cpp:56-66 | the handshake's second phase writes at most one byte, `0xF1`, and writes it exactly when a `0xF0` was read |
| Wire.Repeat | serialcomm.cpp:51-54 | the probe bytes: n copies of `0xF0` |
| Timing.Millis | serialcomm.cpp:89 | a clock reading fits in 32 bits |
| Timing.Elapsed | serialcomm.cpp:91 | `millis() - t` on `unsigned long`: the plain difference without a wrap, and the difference plus 2^32 with one |
| Timing.ElapsedOfClock | serialcomm.cpp:91 | the unsigned difference of two readings is the true elapsed time modulo 2^32, even across a counter wrap |
| Timing.WaitEnd | serialcomm.cpp:89-93 | the first wait ends within `timeout` ms; it ends before `timeout` only once input is readable, never after input became readable, and input is seen if and only if it arrived in time |
| Timing.IdlePeriod | serialcomm.cpp:117-119 | the idle never exceeds `timeout`; it is `timeout - elapsed` when that is not negative, and 0 once the unsigned difference wraps |
| Timing.Paced | serialcomm.cpp:114-121 | `delay` lasts at least as long as its update |
| Timing.PacedClosedForm | serialcomm.cpp:114-121 | without a counter wrap, `delay` lasts exactly `timeout` when its update and the lag fit in it; otherwise it lasts its update's time, plus the lag when the update returned early |
| Timing.ProbeCount | serialcomm.cpp:51-54 | at least one probe is sent; the last probe's idle reaches the peer's first byte, and the one before it did not |

## Left out

- The Arduino `Stream`, `millis()` and `delay()` are replaced by `Transport.Stream`. It is a queue of pending bytes that all become readable at one instant, plus an output sequence and a millisecond counter. Input trickling in byte by byte is not modelled. Two of the model's promises rest on this. First, `update`'s decode loop (serialcomm.cpp:94) consumes all the input: in the source it stops the first time the receive buffer is momentarily empty, and input that keeps arriving keeps it running. Second, `update` ends no later than `timeout` plus one read timeout (`Comm.UpdateEnd`): in the source, a peer that keeps sending keeps `update` running with no bound.
- The busy-waits for a byte inside a frame (serialcomm.cpp:99, 104, 106) spin forever when the input ends inside a request or a report header. `Update` and `Delay` therefore require such input to be absent when it arrives in time. Only a payload that runs short is modelled, as one read timeout.
- The computation takes no time: the clock moves only in `Wait`, in a poll of the first wait, and in a `ReadBytes` that runs short.
- Comm.SerialComm.Delay: the ms that pass between its two clock readings are the parameter `lag`, not a measured quantity. It also requires the stream's read timeout to be below 2^32 - 256 ms, so that an update's duration never wraps the 32-bit counter. The constructor sets that timeout to 1000 ms.
- Comm.SerialComm.Connect: it requires an `0xF1` to be pending. Without one the source loops forever, and that case is not modelled.
- The two unqualified `delay(...)` calls name the member `delay(uint8_t)`, not the Arduino idle. At serialcomm.cpp:119 this is a recursion with the idle period truncated to 8 bits. At serialcomm.cpp:53, inside `connect`, it is a call `delay(232)` (1000 truncated to 8 bits), which runs `update(232)`. That update would read and answer the peer's bytes during the probe phase, consuming a connection request or acknowledgement before the second phase sees it, and would make each probe period at most 232 ms plus any read timeout. Both calls are modelled as the idle the code evidently intends (`Stream.Wait`), for the full 1000 ms at :53, so the model does not capture the probe phase consuming input.
- The compile slips at serialcomm.cpp:31, :45, :52 and :54 (a reference assigned to a pointer, `var` for `&var`, `.` on a pointer) are modelled as evidently intended.
- Application variables are byte sequences copied into the table, not borrowed `void*` memory. Aliasing, and the application changing a variable after registering it, are not modelled. `sizeof(T)` is the sequence length truncated to 8 bits.
- Table entries that were never registered are uninitialised in the source. They are modelled as zero-length entries.
- A value report's payload goes into a fresh heap buffer that is never stored or freed (serialcomm.cpp:108-109). The model keeps this: the report is read and dropped, the table never changes, and the leak is not modelled.
- `send()` runs to the capacity rather than the use count, and `send(id)` checks the id against the capacity. Both are modelled as written.
- `update(0)` returns at once when nothing is pending, because `millis() - t >= 0` always holds. The code is followed here.
- The counter's 32-bit wrap enters only the elapsed-time arithmetic of `update` and `delay`. The `now` counter itself is unbounded.
- serialcomm.h only declares the same class, and the example sketches under examples/led-ctrl are application code. Neither is part of this model.
