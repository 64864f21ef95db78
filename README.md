# Digole display protocol core, in Dafny

A model of the protocol core of `digole.py`, the driver of a Digole serial
display on an I2C bus, with proofs of what that core guarantees. It covers:

- **the chunked writer** `DigolePrimitive._write`: output longer than 64 bytes
  goes to the bus as consecutive 64-byte slices, and every piece is also
  appended to the recording buffer while a recording runs;
- **the instruction recorder** (`isRecording`, `startRecording`,
  `getRecordingSize`, `stopRecording`) and `executeScript`, which replays a
  recording;
- **the command encoder** `_sendCommand`: the opcode followed by each
  argument's bytes (`bytes` verbatim, `int` with one 0xFF extension byte,
  `None` nothing, everything else as UTF-8 text with one zero terminator), and
  three catalog operations that shape their arguments first (`setFont`,
  `drawRectangle`, `setColor`);
- **the response correlator** of `DigoleDisplay`: the six read operations that
  register a pending request in `_waitBuffer`, and `doCheck`, which drains
  two-byte values into `_inBuffer` and walks `_waitBuffer` to match them.

Layout, one module per component:

| file | module | contents |
|---|---|---|
| wrappers.dfy | `Wrappers` | `Option`, `Outcome` (returns or raises), `Result` |
| encoding.dfy | `Encoding` | bytes, the argument encoder, UTF-8 and its reader, the two-byte decoder |
| chunking.dfy | `Chunking` | how `_write` cuts its input, and that the pieces give the input back |
| primitive.dfy | `Primitive` | class `DigolePrimitive`: bus log, `_paperTrail`, writer, recorder, `_sendCommand` |
| catalog.dfy | `Catalog` | argument shaping of `setFont`, `drawRectangle`, `setColor` |
| correlator.dfy | `Correlator` | the drain and the walk of `doCheck` as functions, their properties, worked scenarios |
| display.dfy | `Display` | class `DigoleDisplay`: read registration, `doCheck` as loops, the three catalog senders |

The bus is not part of the model. Writes go to a ghost log `bus` of the byte
strings passed to `i2c.writeto`, oldest first. Reads are a parameter:
`DoCheck` takes the bus's replies (`Data(hi, lo)`, `TimedOut`, `Fault`) in the
order they come, and a bus with no replies left answers with a timeout. The
clock is a parameter too: the read operations and `DoCheck` take `now` in
milliseconds.

The walk of `doCheck` is also compared with a plain reading of its matching,
`Correlator.Serve`: the pending entries, in order, each take the next
`argCount` values. While nothing has expired, the walk is exactly that
matching (`WalkBindsInOrder`). With expired entries, it is that matching over
the live entries the walk reaches (`WalkIsServeOfVisited`). `ServeAnswer` says
which values each entry gets.

`DigoleDisplay` inherits from `DigoleBasic` and `DigolePrimitive` in Python.
Here it holds a `DigolePrimitive` in a constant field and writes through it.
`DigolePrimitive.Valid()` states the recorder's invariant: while recording,
the buffer is exactly the bytes that went onto the bus since recording began.
`DigoleDisplay.Valid()` adds that every pending entry carries its kind's arity
and that `_inBuffer` is empty whenever `_waitBuffer` is.

Where the code and its documented design differ, the model follows the code:

- Integer arguments get at most one extension byte, not one per 255.
  `to_bytes(1, "big")` accepts 0..255 after the subtraction, so the encoder
  accepts 0..510. 510 goes out as `FF FF`. Negative values and values from 511
  up raise `OverflowError` before anything is written.
- Matching never removes an entry from `_waitBuffer`, so a later poll matches
  a matched request again with new values (`MatchedRequestAnsweredTwice`).
  Only the `pop(0)` of an expiry removes an entry, and it always removes the
  head. So an entry can leave before it is 2000 ms old, and an expired one can
  stay.
- That `pop(0)` happens while the list is being iterated. It removes the head
  of the list, which is not always the expired entry (`PopRemovesMatchedHead`).
  It also makes the iteration pass over the next entry: an expired one then
  stays pending (`PopSkipsNextEntry`). A live one gets no values in this poll,
  so the entry after it takes them, and it is answered only by a later poll
  (`SkippedEntryAnsweredLater`).
- The recorder appends each bus piece, not the whole string passed to
  `_write`. The recorded bytes are the same (`Chunking.ChunksFlatten`).

## Model

| member | source | states |
|---|---|---|
| Encoding.EncodeInt | digole.py:131-136 | 0..254 become that one byte; 255..510 become 0xFF then the value minus 255; the encoder succeeds exactly on 0..510 and otherwise raises with the value |
| Encoding.EncodeIntRoundTrip | digole.py:131-136 | every accepted integer is one or two bytes, reads back as itself (255 per leading 0xFF plus the last byte), and starts with 0xFF exactly when it is 255 or more |
| Encoding.EncodeIntInjective | digole.py:131-136 | two different accepted integers never have the same encoding |
| Encoding.Utf8Char | digole.py:144 | a character is 1 to 4 UTF-8 bytes, one byte exactly for ASCII, and none of them is zero unless the character is NUL |
| Encoding.Utf8OfAscii | digole.py:144 | the UTF-8 encoding of ASCII text is its bytes, so an opcode literal and its encoded text agree |
| Encoding.Utf8NoZero | digole.py:139-144 | text without NUL encodes to bytes without a zero byte |
| Encoding.Utf8CharRoundTrip | digole.py:144 | a character's UTF-8 sequence announces its own length in the lead byte and decodes back to the character |
| Encoding.Utf8RoundTrip | digole.py:144 | any text, encoded as UTF-8, decodes back to itself |
| Encoding.TextArgRoundTrip | digole.py:137-144 | a `str`, a `bool` or any other value goes out as `str(arg)` in UTF-8 followed by one terminating zero byte, and the bytes before it decode to the text; without NUL in the text that zero is the only one |
| Encoding.EncodeArgsAppend | digole.py:127-144 | the encoding of two argument lists one after the other is the first list's bytes followed by the second's; a failure in the first list wins |
| Encoding.EncodeArgsFailure | digole.py:127-145 | a command fails exactly when one of its arguments is an int outside 0..510, and then with the first such argument |
| Encoding.EncodeArgsLayout | digole.py:127-144 | when no argument is refused, the encoded arguments are each argument's own encoding, concatenated in argument order |
| Encoding.EncodeCommandLayout | digole.py:122-145 | a command without refused arguments is the opcode followed by the concatenation of each argument's own encoding, in argument order |
| Encoding.EncodeSmallInts | digole.py:131-136 | integer arguments below 255 are one byte each, in argument order |
| Encoding.BigEndian | digole.py:67-72 | a reply value lies in 0..65535, and its high and low bytes are the first and second byte read |
| Chunking.ChunksFlatten | digole.py:54-60 | the pieces `_write` puts on the bus, glued together, are exactly its input: nothing lost, repeated or reordered |
| Chunking.ChunksShape | digole.py:54-60 | up to 64 bytes make one write of the input itself; longer input makes ceil(n/64) writes of the consecutive slices `v[64k:64k+64]`, each non-empty and at most 64 bytes |
| Primitive.DigolePrimitive.constructor | digole.py:40-47 | a new primitive has written nothing and is not recording |
| Primitive.DigolePrimitive.Write | digole.py:50-64 | the bus log grows by the chunks of `v`; while recording, the buffer grows by `v`, when idle it stays `None`; the recording state never changes and the recorder invariant is kept |
| Primitive.DigolePrimitive.StartRecording | digole.py:80-84 | starts an empty buffer when idle; when already recording it changes nothing, so it never resets a buffer and a second call is a no-op |
| Primitive.DigolePrimitive.GetRecordingSize | digole.py:87-90 | 0 when idle, the buffer length while recording, with no state change |
| Primitive.DigolePrimitive.StopRecording | digole.py:93-114 | idle: returns `None` and changes nothing; without a handler returns the whole buffer, which is the bytes written to the bus since the start; with a handler returns the buffer size or propagates the handler's exception; ends idle on every path |
| Primitive.DigolePrimitive.ExecuteScript | digole.py:117-119 | replays a script through `_write`: the bytes that reach the bus are exactly the script, and a running recording captures it and keeps its start |
| Primitive.DigolePrimitive.SendCommand | digole.py:122-145 | writes the encoded command with one `_write` call; a refused argument raises before anything is written |
| Catalog.FontCommandCases | digole.py:251-256 | indices 0..6 use the font table, -7..-1 index it from the end, 7 and up are sent unchanged, below -7 raises; every documented font is "SF" plus one byte |
| Catalog.RectangleBytes | digole.py:313-318 | the rectangle is sent as the corners (x, y) and (x+w, y+h); it is refused exactly when a corner coordinate is outside 0..510, and small corners are one byte each |
| Catalog.ColorBytes | digole.py:374-379 | 8-bit colour components go out after "ESC" as one byte each, the component shifted right by two (0..63) |
| Correlator.AnalogVolts | digole.py:894-896 | the analog reading 0..4096 maps into 0..2.5 V, and 4096 gives exactly 2.5 |
| Correlator.TempCelsius | digole.py:898-900 | the reading 0 gives 653/2.1 degrees |
| Correlator.DrainValues | digole.py:865-872 | a drain makes at most one read per pending entry, appends the values in arrival order as `256*hi + lo` in 0..65535, stops silently at a timeout, and raises exactly at another bus error |
| Correlator.WalkTakesFromFront | digole.py:874-885 | the walk only removes entries from the head of `_waitBuffer` and values from the head of `_inBuffer` |
| Correlator.WalkKeepsLiveEntries | digole.py:874-885 | with no expired entries the walk removes nothing from `_waitBuffer`, not even matched entries, and consumes at most two values per entry |
| Correlator.WalkEvents | digole.py:885-906 | every event has its kind's number of values; ANALOG and TEMP carry their derived reading, CLICK and VOLTAGE none; no CLICK event has a first value over 1000; at most one event per entry |
| Correlator.ServeRest | digole.py:881-885 | in the reference matching, where each entry in order takes the next `argCount` values, service stops only at an entry wanting more values than remain, and the values left are exactly those after what the served entries asked for |
| Correlator.ServeSuffix | digole.py:881-885 | after `j` entries are served, the matching goes on as the matching of the remaining entries on the remaining values |
| Correlator.ServeAnswer | digole.py:885-906 | served entry `j` gets exactly the values between the sum of the arities before it and the sum including it, so no value is shared, skipped or reordered, and its answer is the event built from those values, or none when rejected |
| Correlator.WalkBindsInOrder | digole.py:874-906 | with no expired entry from the current index on, the walk keeps every entry, its events are the unrejected answers of the reference matching in order, it leaves the values the matching left, and it stalls exactly when an entry went unserved |
| Correlator.WalkAnswersOnlyLive | digole.py:875-878 | a walk yields no more events than there are live entries at or after its index |
| Correlator.VisitedLive | digole.py:875-878 | every entry the walk reaches and does not drop, after the index shifts of `pop(0)`, is live and comes from `_waitBuffer` |
| Correlator.WalkIsServeOfVisited | digole.py:874-906 | whatever has expired, the walk's events are the unrejected answers of the reference matching over the live entries it reaches, in order; it leaves the values that matching left and stalls exactly when one of them went unserved; so an expired entry is never answered and takes no value |
| Correlator.WalkAllExpired | digole.py:875-878 | a walk over expired entries only yields no event, consumes no value and does not stall |
| Correlator.WalkStallsOnStarvedEntry | digole.py:880-882 | when the walk stops early, a live entry that wants more values than are buffered is still pending |
| Correlator.OrderedMatching | digole.py:874-912 | requests of arity 2 and 1 with three values: the first two go to the first request, the third to the second |
| Correlator.ExpiredRequestDropped | digole.py:875-910 | a request older than 2000 ms is dropped unanswered, and the emptied `_waitBuffer` clears `_inBuffer` |
| Correlator.ClickRejected | digole.py:889-892 | a click with first value 1500 is not reported, and both its values are consumed |
| Correlator.PopSkipsNextEntry | digole.py:875-878 | after popping an expired head the iteration passes over the next entry, which stays pending though expired |
| Correlator.SkippedEntryAnsweredLater | digole.py:875-885 | a live VOLTAGE entry passed over after a popped expired head gets no value; the CLICK behind it takes two values and is rejected, and the next poll answers the VOLTAGE entry with the remaining value |
| Correlator.PopRemovesMatchedHead | digole.py:875-885 | an expired entry behind a matched one makes `pop(0)` remove the matched head and keep the expired entry |
| Correlator.MatchedRequestAnsweredTwice | digole.py:874-906 | a matched request stays pending and is matched again by the next poll |
| Display.DigoleDisplay.constructor | digole.py:782-786 | a new display has empty wait and input buffers and a fresh primitive |
| Display.DigoleDisplay.Register | digole.py:822-844 | a read opcode is one bus write of its ASCII bytes, which a running recording captures without moving its start, and one pending entry `(kind, arity, now)` is appended |
| Display.DigoleDisplay.CheckTouchScreen | digole.py:822-824 | writes "RPNXYI" and registers a CLICK entry of arity 2; a running recording captures the opcode and keeps its start |
| Display.DigoleDisplay.ReadAnalog | digole.py:826-828 | writes "RDAUX" and registers an ANALOG entry of arity 1; a running recording captures the opcode and keeps its start |
| Display.DigoleDisplay.ReadClick | digole.py:830-832 | writes "RPNXYC" and registers a CLICK entry of arity 2; a running recording captures the opcode and keeps its start |
| Display.DigoleDisplay.ReadTemperature | digole.py:834-836 | writes "RDTMP" and registers a TEMP entry of arity 1; a running recording captures the opcode and keeps its start |
| Display.DigoleDisplay.ReadTouchScreen | digole.py:838-840 | writes "RPNXYW" and registers a CLICK entry of arity 2; a running recording captures the opcode and keeps its start |
| Display.DigoleDisplay.ReadVoltage | digole.py:842-844 | writes "RDBAT" and registers a VOLTAGE entry of arity 1; a running recording captures the opcode and keeps its start |
| Display.DigoleDisplay.DrainReplies | digole.py:865-872 | the drain loop appends exactly the values of the drain function to `_inBuffer`, leaves `_waitBuffer` alone and reports its bus error |
| Display.DigoleDisplay.WalkPending | digole.py:874-906 | the index loop over the shrinking list leaves exactly the buffers and events of the walk function |
| Display.DigoleDisplay.DoCheck | digole.py:861-912 | a bus error leaves the drained values in `_inBuffer` and raises; otherwise the result and both buffers are those of the walk, with `_inBuffer` cleared when `_waitBuffer` ends empty |
| Display.DigoleDisplay.SetFont | digole.py:251-256 | a bad font index raises before writing; otherwise the font command is encoded and written, or refused before writing; a running recording captures exactly what is written, keeps its start, and is untouched by a refusal |
| Display.DigoleDisplay.DrawRectangle | digole.py:313-318 | the rectangle command is written, or refused before writing; a running recording captures exactly what is written, keeps its start, and is untouched by a refusal |
| Display.DigoleDisplay.SetColor | digole.py:374-379 | the colour command is written, or refused before writing; a running recording captures exactly what is written, keeps its start, and is untouched by a refusal |

## Left out

- Bus writes never fail in the model, so the OSError that `i2c.writeto` can raise is not modelled; reads are an injected reply list.
- Pacing is left out: `sleep_ms`, `dataDelay` and the 1 ms sleep in `_readInt`. Their waiting is not modelled.
- The model follows the MicroPython branch of the platform shims (digole.py:22-29). Under CPython, `_readInt` calls `time.sleep_ms(1)` (digole.py:71) on the standard `time` module, which has no such function. So after a successful read `doCheck` raises `AttributeError` there, and that is not modelled.
- The `debug` print in `_write`, `gc.collect`, the unused `_maxRecordingSize`, and the platform shims and clocks (lines 8-29).
- `getDeltaTime` is `now - stamp` on unbounded integers. The wrap-around of `utime.ticks_diff` is not modelled.
- One `now` serves a whole walk; the model does not capture the clock moving between the entries of one walk.
- The ANALOG and TEMP readings are computed in exact `real` arithmetic, not in binary floating point.
- Primitive.DigolePrimitive.StopRecording: the handler is a function from the buffer contents to "returned" or "raised". Its extra `*args`, its other side effects and the stream position it reads from are not modelled. The position is always at the end while recording, so appending is exact.
- Python text containing lone surrogates (on which `encode("utf-8")` raises) cannot be a Dafny `string` and is not modelled. A value passed as "anything else" is given by the text `str()` returns for it.
- Display.DigoleDisplay.SetFont, Display.DigoleDisplay.DrawRectangle, Display.DigoleDisplay.SetColor: coordinates, font indices and colour components are integers. Other Python types, and the `TypeError` they would raise, are not modelled.
- File transfer (`_getFileSize`, `_sendFile`, `_sendLargeFileSlowly`, `uploadUserFont`, `uploadStartScreen`, `drawImageFile`) needs the file system and is not modelled.
- `waitUntilReady` is a retry loop driven by device-not-ready errors and the wall clock, and is not modelled.
- The rest of the `DigoleBasic` catalog and the text helpers `_print`, `printBold` and `printUnderlined` are not modelled. Each is a fixed sequence of `_sendCommand` calls whose bytes follow from `SendCommand`.
