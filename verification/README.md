# acpid-plug, modelled in Dafny

acpid-plug turns the text records that the ACPI daemon (acpid) writes to its
Unix socket into a stream of `Event::Plugged` / `Event::Unplugged` items, one
per real change of the AC adapter's state. This project models the library's
core, `src/lib.rs`, and proves its behaviour:

- **Initial state** (`AcpidPlug.InitialPlugged`): the battery status text
  comes from BAT1, or from BAT0 when the BAT1 read fails; the adapter counts
  as plugged unless the trimmed text is exactly `Discharging`.
- **One line** (`AcpidPlug.Step`): a completed line is trimmed. It must start
  with `ac_adapter`. It emits `Unplugged` when the stream is plugged and the
  text ends in `0`, and `Plugged` when the stream is unplugged and the text
  ends in `1`. Any other line is skipped.
- **One poll** (`AcpidPlug.AcPlugEvents.PollNext`, specified by
  `AcpidPlug.NextItem`): the `poll_next` loop over read results. A
  zero-byte read ends the stream. A failed read returns its error. A line
  that emits an event returns it. Every other line is consumed without
  returning. The line buffer is cleared after every completed line, but not
  when a read fails. Text a failed read kept is therefore still in front of
  the next line, as long as that line is read before a poll returns
  `Pending`. A pending poll drops the `read_line` future that had taken the
  buffer's text, and leaves the buffer empty.
- **Many polls** (`PlugTraces.Run`): the stream polled repeatedly. The
  events it yields alternate in polarity, the first being the opposite of
  the initial state. The state left behind is the one the last event
  announced.

Files: `str_ops.dfy` (Rust's `str::trim`, `starts_with`, `ends_with`),
`acpid_plug.dfy` (the library), `plug_traces.dfy` (runs of many polls).

Modelling choices:

- The socket reader is the field `AcPlugEvents.reader`: the sequence of
  results its `read_line` calls will produce. `Read(data)` is a successful
  read that appended `data` to the line buffer. `Read("")` is a zero-byte
  read. `Failed(partial, e)` is a read that appended `partial` to the
  buffer and then failed with `e`; `read_line` leaves such text in the
  buffer. A read that fails on invalid UTF-8 restores the buffer, which is
  `Failed("", e)`. When the sequence is exhausted a poll returns `Pending`
  with an empty buffer, as tokio's `read_line` leaves it when its future is
  dropped before completing.
- After a successful read of `read` characters, `poll_next` classifies
  `line[..read]` (`AcpidPlug.ReadLine`): the first `read` characters of the
  whole buffer. With an empty buffer that is the line just read. After a
  failed read it is the stale text followed by the new line cut short by
  as many characters. `PlugTraces.FailedReadHidesNextRecord` shows an
  on-line record lost this way.
- `Trim` removes characters with the Unicode White_Space property, the set
  `char::is_whitespace` tests.
- The code falls back to BAT0 whenever reading BAT1 fails, whatever the
  error. It does not restrict the fallback to a missing file. The model
  follows the code.

## Model

| member | source | states |
|---|---|---|
| `StrOps.Trim` | src/lib.rs:101 | the trimmed text is no longer than the line |
| `StrOps.TrimUnpaddedResult` | src/lib.rs:101 | the trimmed text neither starts nor ends with whitespace |
| `StrOps.TrimSplits` | src/lib.rs:101 | every string is leading whitespace, then its trimmed text, then trailing whitespace |
| `StrOps.TrimIgnoresPadding` | src/lib.rs:101 | any whitespace around a string, such as a line's newline, leaves the trimmed text unchanged |
| `StrOps.TrimUnpadded` | src/lib.rs:101 | a string with no surrounding whitespace trims to itself |
| `StrOps.TrimIdempotent` | src/lib.rs:101 | trimming twice gives the same text as trimming once |
| `StrOps.StartsWithIsPrefix` | src/lib.rs:103 | the character-by-character prefix test holds exactly when the prefix is the string's first part |
| `AcpidPlug.InitialPlugged` | src/lib.rs:70-77 | BAT1's text decides when its read succeeds, otherwise BAT0's; it fails only when both reads fail, with BAT0's error |
| `AcpidPlug.UnpluggedWhenDischarging` | src/lib.rs:76 | `Discharging` with any whitespace around it gives the unplugged state |
| `AcpidPlug.DischargingWhenUnplugged` | src/lib.rs:76 | a status that gives the unplugged state is `Discharging` with only whitespace around it |
| `AcpidPlug.DischargingLineUnplugged` | src/lib.rs:76 | `"Discharging\n"` gives the unplugged state |
| `AcpidPlug.OtherStatusesPlugged` | src/lib.rs:76 | `Charging`, `Full` and `Not charging` give the plugged state |
| `AcpidPlug.Step` | src/lib.rs:101-117 | an emitted event differs from the state before it and names the new state; a line without an event leaves the state alone |
| `AcpidPlug.ForeignLineIgnored` | src/lib.rs:103-117 | a line whose trimmed text lacks the `ac_adapter` prefix emits nothing and keeps the state |
| `AcpidPlug.PluggedRecord` | src/lib.rs:104-109 | while plugged, an `ac_adapter` record ending in `0` emits `Unplugged` and unplugs; any other ending, `1` included, does nothing |
| `AcpidPlug.UnpluggedRecord` | src/lib.rs:110-114 | while unplugged, an `ac_adapter` record ending in `1` emits `Plugged` and plugs; any other ending, `0` included, does nothing |
| `AcpidPlug.StepEmitsIffChange` | src/lib.rs:103-114 | an event is emitted exactly when an `ac_adapter` record ends in the digit of the opposite state |
| `AcpidPlug.StepIgnoresPadding` | src/lib.rs:101 | whitespace around a line does not change its classification |
| `AcpidPlug.StepNewlineTerminated` | src/lib.rs:101 | a line with its newline is classified like the same line without it |
| `AcpidPlug.AdapterRecordStep` | src/lib.rs:101-117 | the full table for `ac_adapter` records with any middle text and trailing whitespace: last `0` unplugs a plugged stream, last `1` plugs an unplugged one, all else does nothing |
| `AcpidPlug.OffLineRecord` | src/lib.rs:104-114 | acpid's off-line record unplugs a plugged stream and is redundant for an unplugged one |
| `AcpidPlug.OnLineRecord` | src/lib.rs:104-114 | acpid's on-line record plugs an unplugged stream and is redundant for a plugged one |
| `AcpidPlug.BatteryRecordIgnored` | src/lib.rs:103 | a battery record ending in `1` is not an adapter record and emits nothing |
| `AcpidPlug.ReadLine` | src/lib.rs:92-101 | the classified text is as long as what the read appended, and is exactly that text when the buffer was empty |
| `AcpidPlug.ReadLineAfterStale` | src/lib.rs:92-101 | with stale text in the buffer, the classified text is the stale text followed by the new line cut short by its length, or only stale text |
| `AcpidPlug.StaleTextHidesLine` | src/lib.rs:101-103 | stale text that does not start with whitespace or `a` makes the next line emit nothing, whatever that line is |
| `AcpidPlug.NextItem` | src/lib.rs:91-121 | one poll consumes read results from the front and leaves the rest, makes progress unless pending, is pending only with nothing left, changes the state only by emitting the event that announces the new state, empties the buffer when it emits or goes pending, and keeps an empty buffer empty unless a read fails |
| `AcpidPlug.PendingIffAllSilent` | src/lib.rs:91-121 | a poll is pending exactly when every read result it was given is a non-empty line that emits nothing |
| `AcpidPlug.NextItemSkipsSilent` | src/lib.rs:91-117 | a poll that returns consumed only silent lines before the read result it stops at |
| `AcpidPlug.NextItemEndKeepsBuffer` | src/lib.rs:96-98 | a poll that ends the stream stopped at a zero-byte read and left the buffer as that read found it |
| `AcpidPlug.NextItemErrorKeepsPartial` | src/lib.rs:92-119 | a poll that returns an error stopped at a failed read, returns that read's error, and leaves the text it kept in the buffer without clearing it |
| `AcpidPlug.NextItemFromStop` | src/lib.rs:91-121 | a poll that returns is the same as the poll started at the read result it stops at, with the buffer that read result found: silent lines before it leave no trace but an empty buffer |
| `AcpidPlug.NextItemYieldsStep` | src/lib.rs:101-114 | a poll that returns an event returns the one emitted by the line it stopped at, classified with the buffer that line found |
| `AcpidPlug.NextItemStopsAtFirstAudible` | src/lib.rs:91-121 | the result a returning poll stops at is not silent: it is a zero-byte read exactly for end of stream and a failed read exactly for an error |
| `AcpidPlug.EndAndErrorKeepState` | src/lib.rs:96-119 | a zero-byte read ends the stream and a failed read returns its error, both leaving the state unchanged; neither clears the buffer, and the failed read adds the text it kept |
| `AcpidPlug.AcPlugEvents.constructor` | src/lib.rs:67-78 | a new stream has an empty line buffer, the given reader and the given initial state |
| `AcpidPlug.AcPlugEvents.PollNext` | src/lib.rs:85-122 | the loop returns what `NextItem` gives for the old state, buffer and reader, and leaves the state, buffer and reader as `NextItem` says |
| `AcpidPlug.WithSocket` | src/lib.rs:64-79 | a connection error or a failure of both battery reads is returned; otherwise a new stream with an empty buffer and the initial state from `InitialPlugged` |
| `PlugTraces.Run` | src/lib.rs:82-123 | polling repeatedly, errors included, never yields `Pending` as an item, and an end of stream can only be the last item |
| `PlugTraces.ConsAlternates` | src/lib.rs:104-114 | an event that flips the state, or an error that keeps it, in front of an alternating run keeps it alternating |
| `PlugTraces.RunAlternates` | src/lib.rs:104-114 | over any run the events alternate starting with the opposite of the initial state, and the final state is the one the last event announced |
| `PlugTraces.AlternatesIffNoRepeat` | src/lib.rs:104-114 | alternation means exactly that the first event is not the initial state's and no event repeats the one before it |
| `PlugTraces.RedundantThenPlugged` | src/lib.rs:103-114 | unplugged, a redundant off-line record followed by an on-line record yields exactly one `Plugged` item and leaves the stream plugged |
| `PlugTraces.FailedReadHidesNextRecord` | src/lib.rs:92-119 | unplugged, a failed read that kept text not starting like `ac_adapter`, followed by an on-line record, yields only the error and leaves the stream unplugged |

## Left out

- The async machinery (`Poll::Pending` from the socket, `Context`, `Box::pin`, `poll_unpin`, wakers): a poll that finds no read result left returns `Pending`.
- Opening the Unix socket and the socket path constants, including `connect()`, which only passes the default path to `with_socket`: the connection is an input to `WithSocket`, either the reader or an I/O error.
- The sysfs reads of the BAT1 and BAT0 status files: they are inputs of type `Result<string>`. The model takes the BAT0 result as an input even though the code reads BAT0 only after BAT1 fails. This does not change the result.
- The internals of `read_line`: UTF-8 decoding, byte offsets, and reads cancelled mid-line. A read is described by the text it appended and, if it failed, its error. `line[..read]` counts characters rather than bytes, so the model does not capture the panic that slicing stale text inside a multi-byte character would cause.
- The contents of `std::io::Error`: an error is an opaque `IoError` value carried through unchanged.
- Polling after the end of the stream: `Run` stops at the first end of stream.
- `examples/listen.rs`: a demonstration consumer that prints events and errors.
