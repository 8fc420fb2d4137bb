# jacl bridges: a Dafny model

jacl is a set of three small JACK clients that connect JACK's real-time process callback to standard input and output:

- `jack-stdin-to-midi` reads lines of hex text from standard input. It decodes each line into a MIDI message and passes the messages to the real-time thread through a singly linked queue. The queue has a sentinel head, and the control thread frees drained nodes later.
- `jack-midi-to-stdin` writes each MIDI event of a period as a line of lowercase hex on a non-blocking standard output. If a write is cut short, the next period first writes "X\n", or only the missing "\n" when the 'X' alone got out. The reader then drops the fragment.
- `cv` reads one decimal number per line and keeps the latest valid one. With the clamp build option the value is clamped to [0, 1]. Every sample of its CV output port is set to that value.

The model is split into modules:

| file | module | models |
|---|---|---|
| `common.dfy` | `Common` | the C-string view of `argv[0]` and the program-name scan each `usage` repeats |
| `line_assembly.dfy` | `LineAssembly` | the standard-input line assembler, as a pure specification shared by the two readers |
| `stdin_to_midi.dfy` | `StdinToMidi` | `hex_to_int`, `handle_line`, the queue (`node_new`/`push_back`, `free_excess`, the drain in `process`), the input loop, `usage` |
| `midi_to_stdin.dfy` | `MidiToStdin` | `int_to_hex`, the chunked hex writer and the `LastWritten` state machine of `process`, `usage` |
| `cv.dfy` | `Cv` | the parse/NaN/clamp decision of `handle_line`, the buffer fill of `process`, the input loop, `usage` |
| `protocol.dfy` | `Protocol` | the two MIDI programs against each other: codec round trips, delivery of a period's lines, recovery after a cut line |

The imperative parts of the C source are methods with loops, specified against pure functions:
- the digit loop of `handle_line`;
- the input loops;
- the chunk buffer of `process`;
- `free_excess`;
- the drain.

The state the C code updates in place lives in classes:
- the queue is `StdinToMidi.State`;
- `last_written` is in `MidiToStdin.Bridge`;
- the stored value is in `Cv.State`;
- standard output is `MidiToStdin.Stdout`.

The queue is modelled sequentially, as an arena of nodes. Node `i` carries `message[i]` and the link `next[i]`. Node 0 is the blank node `main` starts with, and `mallocHead <= head <= tail` are node indices.

`write(2)` on standard output is an oracle. The `Stdout` object holds the answers its future writes give. A write accepts the smaller of that answer and the length asked, and nothing once the answers run out. The code treats a failed write (-1) exactly like a write that took nothing, so both are modelled as 0.

`strtof` is a parameter. `cv`'s `HandleLine` takes the parse result for its line: the characters consumed (None for a null end pointer), the value (NaN, an infinity or a finite real) and `errno`. `ReadInput` takes `strtof` as a function from lines to such results.

What the model shows about the code as written:
- An 'X' anywhere in `jack-stdin-to-midi`'s input empties the partial line, not only at the start of one.
- The resynchronisation text "X\n" therefore reaches the receiver as an empty line, and the receiver enqueues a zero-length message (`StdinToMidi.ResyncLineIsEmptyMessage`, `Protocol.ResyncRecovers`).
- The receiver keeps at most 1023 characters of a line. An event longer than 511 bytes arrives as 1023 digits, an odd count, and is rejected (`Protocol.TruncatedEvent`).
- A cut write is never retried; the events it cut are lost. On a descriptor that takes at most one byte per write, no event with content ever gets out whole (`MidiToStdin.OneByteWritesSendOnlyEmptyEvents`).

## Model

| member | source | states |
|---|---|---|
| Common.CString | jack-stdin-to-midi.c:21-23 | the characters a C string holds are a prefix of the bytes, free of NUL, and end at the first NUL when there is one |
| Common.AfterLastSlashIsLastComponent | jack-stdin-to-midi.c:22-28 | the part picked out of the name is free of '/', and is either the whole name or comes right after a '/' |
| Common.ScanStep | jack-stdin-to-midi.c:23-27 | each step of the scan keeps `start` at the beginning of the component after the last '/' read so far |
| Common.ScanEnd | jack-stdin-to-midi.c:28-31 | when the scan stops at the NUL, the string from `start` is that component, and it is empty exactly when `start` is at the NUL |
| Common.ProgramName | jack-stdin-to-midi.c:20-31 | `usage` names the component after the last '/' of `arg0`, or the program's default name when that component is empty or `arg0` is null |
| LineAssembly.Assemble | jack-stdin-to-midi.c:323-338 | the partial line never holds more than the capacity |
| LineAssembly.AssembleAppend | jack-stdin-to-midi.c:313-338 | how the input is split into 64-byte reads does not change the lines handed on or the partial line left |
| LineAssembly.AssembleStepInto | jack-stdin-to-midi.c:323-338 | one more input byte extends the lines handed on by what that byte completes |
| LineAssembly.AssembleNoTerminator | jack-stdin-to-midi.c:335-337 | bytes that end nothing are appended up to the capacity and silently dropped beyond it |
| LineAssembly.LineFeedDispatches | jack-stdin-to-midi.c:329-333 | a line feed hands on the whole partial line and empties it |
| LineAssembly.OneLine | jack-stdin-to-midi.c:329-337 | a line read from an empty buffer comes out as that line cut to the capacity |
| LineAssembly.ResyncDiscards | jack-stdin-to-midi.c:324-328 | an 'X' anywhere drops what was collected since the last line feed; later lines come out as if reading had started after it |
| StdinToMidi.HexToInt | jack-stdin-to-midi.c:159-170 | the result is -1 or a value in 0..15 |
| StdinToMidi.HexToIntDigits | jack-stdin-to-midi.c:159-170 | '0'-'9', 'a'-'f' and 'A'-'F' give their value, both cases alike; every other character gives -1 |
| StdinToMidi.NibblesValue | jack-stdin-to-midi.c:190-194 | the byte built by shifting the first digit left by four and or-ing in the second holds the first digit in its high nibble and the second in its low nibble |
| StdinToMidi.DecodeDigitsAccepts | jack-stdin-to-midi.c:183-189 | an even line decodes exactly when every character is a hex digit |
| StdinToMidi.DecodeDigitsBytes | jack-stdin-to-midi.c:182-195 | an all-hex even line gives `len/2` bytes, byte k made of the digits at 2k and 2k+1 |
| StdinToMidi.DecodeDigitsReportsFirstBad | jack-stdin-to-midi.c:183-189 | a rejected even line reports its first non-digit |
| StdinToMidi.DecodeDigitsFirstBad | jack-stdin-to-midi.c:183-189 | the first non-digit is the character reported |
| StdinToMidi.DecodedBytes | jack-stdin-to-midi.c:182-196 | bytes built digit pair by digit pair are the line's message |
| StdinToMidi.DecodeLineSpec | jack-stdin-to-midi.c:178-196 | an odd length is rejected as such; otherwise a line decodes iff it is all hex, to `len/2` bytes as above, and else reports its first non-digit |
| StdinToMidi.MessagesAppend | jack-stdin-to-midi.c:323-338 | the messages of two runs of lines are those of the first then those of the second |
| StdinToMidi.MessagesSnoc | jack-stdin-to-midi.c:329-333 | a completed line appends its message, if it has one |
| StdinToMidi.State.constructor | jack-stdin-to-midi.c:238-245 | the queue starts as the blank node alone, as head, tail and reclamation frontier, with nothing pending, delivered or freed |
| StdinToMidi.State.PushBack | jack-stdin-to-midi.c:88-111 | the new node carries the message and a null link, becomes the tail, and the old tail links to it; no other node and no cursor changes; pending messages gain it at the end |
| StdinToMidi.State.Free | jack-stdin-to-midi.c:122 | only a node behind the emission cursor that is not yet freed is freed |
| StdinToMidi.State.FreeExcess | jack-stdin-to-midi.c:113-125 | frees exactly the nodes from the old frontier up to but not including `head`, sets the frontier to `head`, never frees `head` or a later node, and frees nothing when called again without a drain |
| StdinToMidi.State.Process | jack-stdin-to-midi.c:132-157 | returns 0 without a port and -1 without a buffer, emitting nothing and moving nothing in both cases; with both, emits every pending payload once, in enqueue order, leaves `head` on the last node so nothing is pending, and returns 0 |
| StdinToMidi.State.HandleLine | jack-stdin-to-midi.c:172-197 | reclaims drained nodes, then enqueues exactly the decoded message; an odd or non-hex line enqueues nothing, leaves `tail` alone and is reported |
| StdinToMidi.DecodeEven | jack-stdin-to-midi.c:182-195 | the digit loop produces the decoded line, or the first bad digit |
| StdinToMidi.Feed | jack-stdin-to-midi.c:323-337 | one byte: 'X' empties the line, a line feed hands it to `handle_line` and empties it, anything else is kept while fewer than 1023 are held; a line that is handed on first frees every drained node and moves the reclamation frontier to `head`, any other byte frees nothing |
| StdinToMidi.ReadInput | jack-stdin-to-midi.c:323-338 | after one read, the line buffer holds the assembler's partial line and the queue has gained the messages of the completed lines; if any line was completed, every node drained before the read has been freed and the reclamation frontier is at `head`, otherwise nothing was freed |
| StdinToMidi.Usage | jack-stdin-to-midi.c:20-33 | the name printed is the last path component of `arg0`, or "jack-stdin-to-midi" |
| StdinToMidi.ResyncLineIsEmptyMessage | jack-stdin-to-midi.c:324-333 | "X\n" hands on an empty line, which decodes to a zero-length message |
| MidiToStdin.IntToHex | jack-midi-to-stdin.c:90-98 | the result is '?' exactly for values outside 0..15 |
| MidiToStdin.IntToHexDigits | jack-midi-to-stdin.c:90-98 | 0..15 give the lowercase digit of that value |
| MidiToStdin.ByteHex | jack-midi-to-stdin.c:140-142 | each byte is written as two characters |
| MidiToStdin.Hex | jack-midi-to-stdin.c:139-142 | an event of n bytes is 2n characters |
| MidiToStdin.HexDigits | jack-midi-to-stdin.c:139-142 | an event's text holds only lowercase hex digits, so neither a line feed nor an 'X' |
| MidiToStdin.LinesSnoc | jack-midi-to-stdin.c:131-157 | the text of the events then one more is their text then its line |
| MidiToStdin.Accepted | jack-midi-to-stdin.c:146-149 | a write takes no more than asked, and all of it when the descriptor allows |
| MidiToStdin.Stdout.Write | jack-midi-to-stdin.c:146 | standard output gains exactly the accepted prefix of the data and its count is returned |
| MidiToStdin.EmitFromWrites | jack-midi-to-stdin.c:136-156 | an event that gets out whole adds exactly its line; otherwise a proper prefix of it |
| MidiToStdin.AmpleWritesComplete | jack-midi-to-stdin.c:139-156 | when every write takes a whole buffer, the event gets out whole |
| MidiToStdin.AmpleWritesSendLine | jack-midi-to-stdin.c:139-156 | with full writes an n-byte event writes exactly its hex text and "\n", 2n+1 characters; an empty event writes "\n" |
| MidiToStdin.HexStep | jack-midi-to-stdin.c:139-142 | the text of the bytes from j is byte j's two digits then the rest |
| MidiToStdin.PrefixCut | jack-midi-to-stdin.c:146-155 | a cut write leaves a proper prefix of what was owed |
| MidiToStdin.EmitLine | jack-midi-to-stdin.c:136-156 | one event from an empty buffer: its whole line, or a proper prefix of it |
| MidiToStdin.LinesFirst | jack-midi-to-stdin.c:131-157 | the text of the first k events is the first event's line then the next k-1 |
| MidiToStdin.EmitEventsWrites | jack-midi-to-stdin.c:130-157 | the events sent whole are a prefix of the period's events and their lines are on standard output; all are sent exactly when the period completes |
| MidiToStdin.LinesOne | jack-midi-to-stdin.c:131-157 | the text of one event is its line |
| MidiToStdin.EmitEventsCut | jack-midi-to-stdin.c:146-155 | when an event is cut, the output ends inside its line and no later event is touched |
| MidiToStdin.Resync | jack-midi-to-stdin.c:112-128 | from PARTIAL, "X\n" is written: 1 byte taken gives X and the period ends, 2 give NEWLINE and events follow, otherwise PARTIAL stays; from X, "\n" is written: NEWLINE on success, X and no events otherwise |
| MidiToStdin.TickWrites | jack-midi-to-stdin.c:100-159 | a period writes the resynchronisation text before any event line, then the lines of the events sent whole; it ends NEWLINE exactly when all events got out, and PARTIAL inside the next event's line otherwise |
| MidiToStdin.OneByteWritesSendOnlyEmptyEvents | jack-midi-to-stdin.c:139-156 | when no write takes more than one byte, only empty events are sent whole |
| MidiToStdin.FirstWriteIsLong | jack-midi-to-stdin.c:141-148 | with digits already in the buffer, a next write that accepts no more characters than the buffer holds leaves the event cut |
| MidiToStdin.ShortFirstWriteCuts | jack-midi-to-stdin.c:141-148 | written from an empty buffer, an event with content needs a first write of at least three characters to get out whole |
| MidiToStdin.Bridge.constructor | jack-midi-to-stdin.c:201-205 | the state starts at NEWLINE |
| MidiToStdin.Bridge.Process | jack-midi-to-stdin.c:100-159 | returns 0 without a port and -1 without a buffer; otherwise the new state, the return code and what standard output holds are those of one period |
| MidiToStdin.Bridge.Resynchronize | jack-midi-to-stdin.c:112-128 | the state machine step at the start of a period |
| MidiToStdin.WriteEvents | jack-midi-to-stdin.c:130-157 | writes the events in order, stopping at the first that does not get out whole |
| MidiToStdin.WriteEvent | jack-midi-to-stdin.c:136-156 | fills the 128-character buffer two digits per byte, flushes exactly when it is full, adds the line feed that always fits, and reports any cut write |
| MidiToStdin.PutByte | jack-midi-to-stdin.c:140-150 | appends the two digits of a byte; when that fills the 128-character buffer, writes it and starts it again at 0 |
| MidiToStdin.Usage | jack-midi-to-stdin.c:19-32 | the name printed is the last path component of `arg0`, or "jack-midi-to-stdin" |
| Cv.Trichotomy | cv.c:150-157 | every value but NaN is exactly one of below 0, in [0, 1], above 1 |
| Cv.Clamp | cv.c:150-157 | the clamped value lies in [0, 1]: a value below 0 becomes 0, one above 1 becomes 1, and one already in [0, 1] is unchanged |
| Cv.ClampIsNearest | cv.c:150-157 | clamping gives the point of [0, 1] nearest the value |
| Cv.ClampMonotone | cv.c:150-157 | clamping keeps the order of values |
| Cv.ClampIdempotent | cv.c:150-157 | clamping a clamped value changes nothing |
| Cv.Decide | cv.c:130-158 | a line is rejected exactly when the parse fails (null end pointer, nothing consumed, or `errno` set) or gives NaN; a stored value is never NaN, lies in [0, 1] when clamping, and is the parsed value unless clamping changed it, which is then reported |
| Cv.NextValue | cv.c:130-158 | a failed or NaN parse keeps the old value; otherwise the parsed value, clamped when the option is on |
| Cv.SettleSound | cv.c:296-301 | any run of lines keeps the value never NaN and, when clamping, in [0, 1] |
| Cv.SettleLatestWins | cv.c:296-301 | the last line that parses to a number decides the value; invalid lines after it change nothing |
| Cv.SettleAppend | cv.c:296-301 | later lines start from the value the earlier ones left |
| Cv.NoResyncMarker | cv.c:296-306 | 'X' is collected like any other byte |
| Cv.State.constructor | cv.c:204-206 | the value starts at 0 |
| Cv.State.HandleLine | cv.c:130-159 | stores the decided value or keeps the old one, and reports the message written to standard error |
| Cv.State.Process | cv.c:109-128 | returns 0 without a port and -1 without a buffer; otherwise every one of the `nframes` samples becomes the current value and nothing past them changes |
| Cv.Feed | cv.c:296-306 | one byte: a line feed hands the line to `handle_line` and empties it, anything else is kept while fewer than 127 are held |
| Cv.ReadInput | cv.c:296-306 | after one read, the line buffer holds the assembler's partial line (capacity 127, no marker) and the value is what the completed lines settle it to |
| Cv.Usage | cv.c:44-57 | the name printed is the last path component of `arg0`, or "jacl-cv" |
| Protocol.DigitRoundTrip | jack-midi-to-stdin.c:90-98 | each digit written reads back as its value |
| Protocol.LowerDigitRoundTrip | jack-stdin-to-midi.c:159-170 | each lowercase digit read is written back as itself |
| Protocol.ByteRoundTrip | jack-midi-to-stdin.c:140-142 | the two digits written for a byte read back as its nibbles and rebuild the byte |
| Protocol.SplitByte | jack-stdin-to-midi.c:190-194 | a byte is rebuilt from its high and low nibbles |
| Protocol.NibblesRoundTrip | jack-stdin-to-midi.c:190-194 | a byte built from two digits is written back as those digits in lowercase |
| Protocol.DecodeDigitsHex | jack-midi-to-stdin.c:139-142 | the digits written for an event decode to the event |
| Protocol.DecodeHex | jack-midi-to-stdin.c:139-152 | the receiver decodes the sender's line for an event back into that event |
| Protocol.EncodeDecoded | jack-stdin-to-midi.c:182-196 | an even line of lowercase digits decodes, and the sender writes the message back as that line |
| Protocol.EventLine | jack-stdin-to-midi.c:323-338 | the receiver reads an event's line as one line, cut to 1023 characters |
| Protocol.TruncatedEvent | jack-stdin-to-midi.c:335-337 | events of up to 511 bytes arrive whole; longer ones become odd-length lines and are rejected |
| Protocol.Deliverable | jack-stdin-to-midi.c:290 | the events that fit the 1024-byte line buffer, in order: no more than the events, each of at most 511 bytes, every result one of the events and every event that fits among the results, and all events when all fit |
| Protocol.MessagesCons | jack-stdin-to-midi.c:329-333 | the messages of a run of lines starting with one line |
| Protocol.DeliverLines | jack-midi-to-stdin.c:130-157 | the receiver reads a run of event lines back as exactly the events that fit, in order, with its line buffer left empty |
| Protocol.PeriodDelivers | jack-midi-to-stdin.c:100-159 | a period starting on a line boundary (NEWLINE, nothing written before) that gets all its text out delivers exactly its events that fit |
| Protocol.ResyncRecovers | jack-midi-to-stdin.c:112-128 | a cut fragment of a line, then "X\n" and later lines, is read as one empty message and then exactly those later events: the fragment is dropped |

## Left out

- The JACK API (`jack_client_open`, port registration, `jack_port_get_buffer`, `jack_midi_clear_buffer`, `jack_midi_event_write`, `jack_midi_get_event_count`, `jack_set_property`, activation): a port is a boolean and a buffer an option, or a boolean where only its presence matters. The events a MIDI port delivers are a sequence of byte sequences. The payloads `process` passes to `jack_midi_event_write` are returned in order.
- The `break` when `jack_midi_event_get` fails (jack-midi-to-stdin.c:133-135): the model always receives every event of the period.
- The debug line `process` prints to standard error for each event (jack-midi-to-stdin.c:138), and the text of every diagnostic. `cv`'s `HandleLine` returns which diagnostic it would print; `jack-stdin-to-midi`'s returns the rejection reason.
- POSIX plumbing (`poll`, `read`, `fcntl`, `pipe`, `sigaction`, the exit handler, the `/dev/tty` newline): the input loops are modelled per block of bytes that `read` returned, and the blocks are joined by `LineAssembly.AssembleAppend`.
- Atomics and memory orderings: the queue operations and the stored CV value are modelled as single-threaded calls, which may be interleaved in any order.
- `StdinToMidi.State.HandleLine`: the node `node_new` allocates before the digit loop is not modelled. A line with a bad digit therefore allocates nothing here, while the C code leaks that node. `malloc`'s `abort` on failure is also left out.
- `strtof`: its parsing is not modelled. Its result is a parameter. Floats are reals with NaN and two infinities, so -0.0 is not distinct from 0.0. Rounding to single precision is not modelled.
- `StdinToMidi.NibblesValue`: states that each nibble can be read back by shift and mask. It does not state the byte's integer value `16*hi + lo`.
- Argument parsing in each `main` (`-h`, `--help`, `--version`, `--`, the client name) and the `fprintf` of the usage text. The `Usage` methods return the program name that text would print.
