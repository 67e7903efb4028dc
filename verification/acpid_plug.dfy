/** The AC-adapter plug event stream: the initial state read from the battery
    status, the per-line classification of acpid records, and the
    `AcPlugEvents` stream whose `PollNext` turns read results into
    deduplicated `Plugged` / `Unplugged` events. */
module AcpidPlug {
  import opened StrOps

  datatype Option<T> = None | Some(value: T)

  /** An opaque `std::io::Error` value, passed through unchanged. */
  datatype IoError = IoError(id: int)

  /** `std::io::Result<T>`. */
  datatype Result<T> = Ok(value: T) | Err(error: IoError)

  /** Whether the power adapter has been plugged or unplugged. */
  datatype Event = Plugged | Unplugged

  /** The event that announces the state `plugged`. */
  function EventFor(plugged: bool): Event {
    if plugged then Plugged else Unplugged
  }

  // ---------------------------------------------------------------------
  // Initial state

  const Discharging: string := "Discharging"

  /** The rule `status.trim() != "Discharging"`. */
  function PluggedFromStatus(status: string): bool {
    Trim(status) != Discharging
  }

  /** The status text is read from BAT1; if that read fails for any reason
      the text of BAT0 is used, and a failure there is the caller's. */
  function InitialPlugged(bat1: Result<string>, bat0: Result<string>): (r: Result<bool>)
    ensures r.Err? <==> bat1.Err? && bat0.Err?
    ensures r.Err? ==> r.error == bat0.error
    ensures bat1.Ok? ==> r == Ok(PluggedFromStatus(bat1.value))
    ensures bat1.Err? && bat0.Ok? ==> r == Ok(PluggedFromStatus(bat0.value))
  {
    var status := match bat1
      case Ok(s) => Ok(s)
      case Err(_) => bat0;
    match status
    case Ok(s) => Ok(PluggedFromStatus(s))
    case Err(e) => Err(e)
  }

  /** A status that is "Discharging" with any whitespace around it gives
      the unplugged state. */
  lemma UnpluggedWhenDischarging(lead: string, trail: string)
    requires AllSpace(lead) && AllSpace(trail)
    ensures !PluggedFromStatus(lead + Discharging + trail)
  {
    TrimIgnoresPadding(lead, Discharging, trail);
    TrimUnpadded(Discharging);
  }

  /** Conversely, a status that gives the unplugged state is "Discharging"
      with only whitespace around it. */
  lemma DischargingWhenUnplugged(status: string) returns (lead: string, trail: string)
    requires !PluggedFromStatus(status)
    ensures AllSpace(lead) && AllSpace(trail)
    ensures status == lead + Discharging + trail
  {
    lead, trail := TrimSplits(status);
  }

  /** "Discharging" followed by the newline sysfs ends it with gives the
      unplugged state. */
  lemma DischargingLineUnplugged()
    ensures !PluggedFromStatus("Discharging\n")
  {
    UnpluggedWhenDischarging("", "\n");
    assert "" + Discharging + "\n" == "Discharging\n";
  }

  /** The other statuses the kernel reports give the plugged state. */
  lemma OtherStatusesPlugged()
    ensures PluggedFromStatus("Charging") && PluggedFromStatus("Full")
    ensures PluggedFromStatus("Not charging")
  {
    TrimUnpadded("Charging");
    TrimUnpadded("Full");
    TrimUnpadded("Not charging");
  }

  // ---------------------------------------------------------------------
  // One line

  const AdapterPrefix: string := "ac_adapter"

  /** The state after one completed line, and the event it emits, if any. */
  datatype Stepped = Stepped(plugged: bool, event: Option<Event>)

  /** The classification `poll_next` applies to one line read from the
      socket: trim it, require the `ac_adapter` prefix, and emit only a
      change of state, `0` meaning unplugged and `1` plugged. An emitted
      event always differs from the state before it and names the new state;
      no event leaves the state alone. */
  function Step(plugged: bool, line: string): (r: Stepped)
    ensures r.event.None? ==> r.plugged == plugged
    ensures r.event.Some? ==> r.plugged != plugged && r.event.value == EventFor(r.plugged)
  {
    var text := Trim(line);
    if StartsWith(text, AdapterPrefix) then
      if plugged then
        if EndsWith(text, '0') then Stepped(false, Some(Unplugged)) else Stepped(plugged, None)
      else if EndsWith(text, '1') then Stepped(true, Some(Plugged)) else Stepped(plugged, None)
    else Stepped(plugged, None)
  }

  /** A line whose trimmed text is not an `ac_adapter` record emits nothing
      and leaves the state alone. */
  lemma ForeignLineIgnored(plugged: bool, line: string)
    requires !StartsWith(Trim(line), AdapterPrefix)
    ensures Step(plugged, line) == Stepped(plugged, None)
  {
  }

  /** While plugged: a record ending in `0` unplugs and emits `Unplugged`;
      a record ending in anything else, `1` included, does nothing. */
  lemma PluggedRecord(line: string)
    requires StartsWith(Trim(line), AdapterPrefix)
    ensures EndsWith(Trim(line), '0') ==> Step(true, line) == Stepped(false, Some(Unplugged))
    ensures !EndsWith(Trim(line), '0') ==> Step(true, line) == Stepped(true, None)
  {
  }

  /** While unplugged: a record ending in `1` plugs and emits `Plugged`;
      a record ending in anything else, `0` included, does nothing. */
  lemma UnpluggedRecord(line: string)
    requires StartsWith(Trim(line), AdapterPrefix)
    ensures EndsWith(Trim(line), '1') ==> Step(false, line) == Stepped(true, Some(Plugged))
    ensures !EndsWith(Trim(line), '1') ==> Step(false, line) == Stepped(false, None)
  {
  }

  /** An event is emitted exactly when a record announces the state the
      engine is not in. */
  lemma StepEmitsIffChange(plugged: bool, line: string)
    ensures Step(plugged, line).event.Some? <==>
      StartsWith(Trim(line), AdapterPrefix) && EndsWith(Trim(line), if plugged then '0' else '1')
  {
  }

  /** Whitespace around a line, its terminating newline included, does not
      change how it is classified. */
  lemma StepIgnoresPadding(plugged: bool, lead: string, line: string, trail: string)
    requires AllSpace(lead) && AllSpace(trail)
    ensures Step(plugged, lead + line + trail) == Step(plugged, line)
  {
    TrimIgnoresPadding(lead, line, trail);
  }

  /** A line that arrives with its newline is classified as the text
      before the newline. */
  lemma StepNewlineTerminated(plugged: bool, line: string)
    ensures Step(plugged, line + "\n") == Step(plugged, line)
  {
    StepIgnoresPadding(plugged, "", line, "\n");
    assert "" + line + "\n" == line + "\n";
  }

  /** An `ac_adapter` record, whatever lies between the prefix and its last
      character and whatever whitespace follows it: a last `0` unplugs a
      plugged engine, a last `1` plugs an unplugged one, and every other
      combination does nothing. */
  lemma AdapterRecordStep(plugged: bool, body: string, last: char, trail: string)
    requires !IsSpace(last) && AllSpace(trail)
    ensures Step(plugged, AdapterPrefix + body + [last] + trail) ==
      if plugged && last == '0' then Stepped(false, Some(Unplugged))
      else if !plugged && last == '1' then Stepped(true, Some(Plugged))
      else Stepped(plugged, None)
  {
    var text := AdapterPrefix + body + [last];
    StepIgnoresPadding(plugged, "", text, trail);
    assert "" + text + trail == AdapterPrefix + body + [last] + trail;
    TrimUnpadded(text);
    StartsWithIsPrefix(text, AdapterPrefix);
    assert text[..|AdapterPrefix|] == AdapterPrefix;
  }

  /** The text of acpid's adapter records between the prefix and the final
      digit. */
  const AcpiBody: string := " ACPI0003:00 00000080 0000000"

  /** acpid's adapter records are `ac_adapter`, that text, a digit and a
      newline. */
  lemma AdapterRecordShape(digit: char)
    ensures AdapterPrefix + AcpiBody + [digit] + "\n" == "ac_adapter ACPI0003:00 00000080 0000000" + [digit, '\n']
  {
    assert AdapterPrefix + AcpiBody == "ac_adapter ACPI0003:00 00000080 0000000";
  }

  /** acpid's record for the adapter going off line unplugs a plugged
      engine and is redundant for an unplugged one. */
  lemma OffLineRecord()
    ensures Step(true, "ac_adapter ACPI0003:00 00000080 00000000\n") == Stepped(false, Some(Unplugged))
    ensures Step(false, "ac_adapter ACPI0003:00 00000080 00000000\n") == Stepped(false, None)
  {
    AdapterRecordShape('0');
    assert "ac_adapter ACPI0003:00 00000080 0000000" + ['0', '\n'] == "ac_adapter ACPI0003:00 00000080 00000000\n";
    AdapterRecordStep(true, AcpiBody, '0', "\n");
    AdapterRecordStep(false, AcpiBody, '0', "\n");
  }

  /** acpid's record for the adapter coming on line plugs an unplugged
      engine and is redundant for a plugged one. */
  lemma OnLineRecord()
    ensures Step(false, "ac_adapter ACPI0003:00 00000080 00000001\n") == Stepped(true, Some(Plugged))
    ensures Step(true, "ac_adapter ACPI0003:00 00000080 00000001\n") == Stepped(true, None)
  {
    AdapterRecordShape('1');
    assert "ac_adapter ACPI0003:00 00000080 0000000" + ['1', '\n'] == "ac_adapter ACPI0003:00 00000080 00000001\n";
    AdapterRecordStep(false, AcpiBody, '1', "\n");
    AdapterRecordStep(true, AcpiBody, '1', "\n");
  }

  /** A battery record ending in `1` is not an adapter record. */
  lemma BatteryRecordIgnored(plugged: bool)
    ensures Step(plugged, "battery PNP0C0A:00 00000080 00000001\n") == Stepped(plugged, None)
  {
    var line := "battery PNP0C0A:00 00000080 00000001\n";
    assert line[0] == 'b';
    assert Trim(line)[0] == 'b';
  }

  // ---------------------------------------------------------------------
  // One poll

  /** What one `read_line` on the socket produces: the text it appended to
      the line buffer (empty for a zero-byte read, the end of the stream),
      or an I/O error together with the text it had already appended to the
      buffer before failing, which `read_line` leaves there. */
  datatype ReadOutcome = Read(data: string) | Failed(partial: string, error: IoError)

  /** The text `poll_next` classifies after a read that appended `data` to
      a buffer holding `buffer`: the first `|data|` characters of the
      buffer. With an empty buffer that is exactly what was read; text left
      behind by a failed read comes first and pushes the end of the new
      line out. */
  function ReadLine(buffer: string, data: string): (text: string)
    ensures |text| == |data|
    ensures buffer == [] ==> text == data
  {
    (buffer + data)[..|data|]
  }

  /** With text left in the buffer, the classified text is that stale text
      followed by the new line cut short by as many characters, or only
      stale text when the new line is no longer than it. */
  lemma ReadLineAfterStale(buffer: string, data: string)
    ensures |buffer| <= |data| ==> ReadLine(buffer, data) == buffer + data[..|data| - |buffer|]
    ensures |data| <= |buffer| ==> ReadLine(buffer, data) == buffer[..|data|]
  {
  }

  /** Text left in the buffer that starts with something other than
      whitespace or the `a` of `ac_adapter` hides whatever line is read
      next: that line emits nothing. */
  lemma StaleTextHidesLine(plugged: bool, stale: string, data: string)
    requires stale != [] && !IsSpace(stale[0]) && stale[0] != AdapterPrefix[0]
    ensures Step(plugged, ReadLine(stale, data)) == Stepped(plugged, None)
  {
    var text := ReadLine(stale, data);
    if text != [] {
      assert text[0] == stale[0];
      assert TrimStart(text) == text;
      if TrailingSpaces(text) == |text| {
        TrailingSpacesAreSpace(text);
        assert false;
      }
      assert Trim(text)[0] == stale[0];
    }
  }

  /** What one poll of the stream returns: `Poll::Pending` (no read result is
      available yet), `Ready(None)` (end of stream), `Ready(Some(Ok(event)))`
      or `Ready(Some(Err(error)))`. */
  datatype Polled = Pending | End | Yield(event: Event) | Error(error: IoError)

  /** A read result that the loop in `poll_next` consumes without returning
      to its caller, when it arrives with `buffer` in the line buffer: a
      non-empty read whose line emits no event. */
  predicate Silent(plugged: bool, buffer: string, r: ReadOutcome) {
    r.Read? && |r.data| > 0 && Step(plugged, ReadLine(buffer, r.data)).event.None?
  }

  /** The line buffer when the `i`-th read result of a poll arrives, the
      earlier ones having been silent lines, each cleared after use. */
  function BufferAt(line: string, i: nat): string {
    if i == 0 then line else []
  }

  /** The result of one poll, the state and line buffer after it and the
      read results that are still to be consumed. */
  datatype Advance = Advance(polled: Polled, plugged: bool, line: string, rest: seq<ReadOutcome>)

  /** The number of read results an advance consumed from `outcomes`. */
  function Consumed(outcomes: seq<ReadOutcome>, a: Advance): int {
    |outcomes| - |a.rest|
  }

  /** One poll of the stream, as a function of the state, the line buffer
      and the read results the socket has for it. The poll consumes read
      results until one calls for a return, and is pending when they run out
      first; it always makes progress unless pending, and only an emitted
      event changes the state, to the state that event announces. A
      returned event leaves the buffer empty, and so does a pending poll:
      the pending `read_line` had taken the buffer's text and is dropped
      with it. An empty buffer stays empty unless a read fails. */
  function NextItem(plugged: bool, line: string, outcomes: seq<ReadOutcome>): (a: Advance)
    ensures |a.rest| <= |outcomes| && a.rest == outcomes[Consumed(outcomes, a)..]
    ensures a.polled.Pending? ==> a.rest == [] && a.line == []
    ensures !a.polled.Pending? ==> Consumed(outcomes, a) > 0
    ensures a.polled.Yield? ==> a.plugged != plugged && a.polled.event == EventFor(a.plugged)
    ensures !a.polled.Yield? ==> a.plugged == plugged
    ensures a.polled.Yield? ==> a.line == []
    ensures line == [] && !a.polled.Error? ==> a.line == []
    decreases |outcomes|
  {
    if outcomes == [] then Advance(Pending, plugged, [], [])
    else match outcomes[0]
      case Failed(partial, e) => Advance(Error(e), plugged, line + partial, outcomes[1..])
      case Read(data) =>
        if |data| == 0 then Advance(End, plugged, line, outcomes[1..])
        else
          var s := Step(plugged, ReadLine(line, data));
          match s.event
          case Some(e) => Advance(Yield(e), s.plugged, [], outcomes[1..])
          case None => NextItem(plugged, [], outcomes[1..])
  }

  /** A silent first read result is cleared and the poll goes on with the
      rest and an empty buffer. */
  lemma SilentHeadSkipped(plugged: bool, line: string, outcomes: seq<ReadOutcome>)
    requires outcomes != [] && Silent(plugged, line, outcomes[0])
    ensures NextItem(plugged, line, outcomes) == NextItem(plugged, [], outcomes[1..])
  {
  }

  /** A poll is pending exactly when every read result it was given is
      silent. */
  lemma {:induction false} PendingIffAllSilent(plugged: bool, line: string, outcomes: seq<ReadOutcome>)
    ensures NextItem(plugged, line, outcomes).polled.Pending? <==>
      && (outcomes != [] ==> Silent(plugged, line, outcomes[0]))
      && (forall i :: 1 <= i < |outcomes| ==> Silent(plugged, [], outcomes[i]))
    decreases |outcomes|
  {
    if outcomes != [] && Silent(plugged, line, outcomes[0]) {
      var tail := outcomes[1..];
      SilentHeadSkipped(plugged, line, outcomes);
      PendingIffAllSilent(plugged, [], tail);
      assert forall i :: 1 <= i < |outcomes| ==> outcomes[i] == tail[i - 1];
    }
  }

  /** A poll that returns consumes a run of silent lines first: every read
      result before the one it stops at is silent. */
  lemma {:induction false} NextItemSkipsSilent(plugged: bool, line: string, outcomes: seq<ReadOutcome>)
    requires !NextItem(plugged, line, outcomes).polled.Pending?
    ensures var k := Consumed(outcomes, NextItem(plugged, line, outcomes)) - 1;
      && (0 < k ==> Silent(plugged, line, outcomes[0]))
      && (forall i :: 1 <= i < k ==> Silent(plugged, [], outcomes[i]))
    decreases |outcomes|
  {
    if Silent(plugged, line, outcomes[0]) {
      var tail := outcomes[1..];
      var a := NextItem(plugged, [], tail);
      SilentHeadSkipped(plugged, line, outcomes);
      NextItemSkipsSilent(plugged, [], tail);
      assert forall i :: 1 <= i < |outcomes| ==> outcomes[i] == tail[i - 1];
    }
  }

  /** A poll that ends the stream stops at a zero-byte read and leaves the
      buffer as that read found it. */
  lemma {:induction false} NextItemEndKeepsBuffer(plugged: bool, line: string, outcomes: seq<ReadOutcome>)
    requires NextItem(plugged, line, outcomes).polled.End?
    ensures var a := NextItem(plugged, line, outcomes); var k := Consumed(outcomes, a) - 1;
      outcomes[k] == Read("") && a.line == BufferAt(line, k)
    decreases |outcomes|
  {
    if Silent(plugged, line, outcomes[0]) {
      var tail := outcomes[1..];
      var a := NextItem(plugged, [], tail);
      SilentHeadSkipped(plugged, line, outcomes);
      NextItemEndKeepsBuffer(plugged, [], tail);
      var k := Consumed(tail, a);
      assert Consumed(outcomes, a) - 1 == k;
      assert outcomes[k] == tail[k - 1];
      assert BufferAt(line, k) == BufferAt([], k - 1);
    } else {
      assert outcomes[0] == Read("");
    }
  }

  /** A poll that returns an error returns the failed read's own error, and
      adds the text that read kept to the buffer it found. */
  lemma {:induction false} NextItemErrorKeepsPartial(plugged: bool, line: string, outcomes: seq<ReadOutcome>)
    requires NextItem(plugged, line, outcomes).polled.Error?
    ensures var a := NextItem(plugged, line, outcomes); var k := Consumed(outcomes, a) - 1;
      && outcomes[k].Failed? && outcomes[k].error == a.polled.error
      && a.line == BufferAt(line, k) + outcomes[k].partial
    decreases |outcomes|
  {
    if Silent(plugged, line, outcomes[0]) {
      var tail := outcomes[1..];
      var a := NextItem(plugged, [], tail);
      SilentHeadSkipped(plugged, line, outcomes);
      NextItemErrorKeepsPartial(plugged, [], tail);
      var k := Consumed(tail, a);
      assert Consumed(outcomes, a) - 1 == k;
      assert outcomes[k] == tail[k - 1];
      assert BufferAt(line, k) == BufferAt([], k - 1);
    } else {
      assert NextItem(plugged, line, outcomes) == Advance(Error(outcomes[0].error), plugged, line + outcomes[0].partial, outcomes[1..]);
    }
  }

  /** A poll equals the poll that starts at the read result it stops at,
      with the buffer that read result found. */
  predicate StopsAt(plugged: bool, line: string, outcomes: seq<ReadOutcome>) {
    var a := NextItem(plugged, line, outcomes); var k := Consumed(outcomes, a) - 1;
    0 <= k && a == NextItem(plugged, BufferAt(line, k), outcomes[k..])
  }

  /** A poll whose first read result calls for a return stops there. */
  lemma StopsAtHead(plugged: bool, line: string, outcomes: seq<ReadOutcome>)
    requires !NextItem(plugged, line, outcomes).polled.Pending?
    requires !Silent(plugged, line, outcomes[0])
    ensures StopsAt(plugged, line, outcomes)
  {
    assert NextItem(plugged, line, outcomes).rest == outcomes[1..];
    assert outcomes[0..] == outcomes;
  }

  /** A silent first read result moves the stop one read result later. */
  lemma StopsAtAfterSilent(plugged: bool, line: string, outcomes: seq<ReadOutcome>)
    requires outcomes != [] && Silent(plugged, line, outcomes[0])
    requires !NextItem(plugged, [], outcomes[1..]).polled.Pending?
    requires StopsAt(plugged, [], outcomes[1..])
    ensures StopsAt(plugged, line, outcomes)
  {
    var tail := outcomes[1..];
    var a := NextItem(plugged, [], tail);
    SilentHeadSkipped(plugged, line, outcomes);
    var k := Consumed(tail, a);
    assert Consumed(outcomes, a) - 1 == k;
    assert outcomes[k..] == tail[k - 1..];
    assert BufferAt(line, k) == BufferAt([], k - 1);
  }

  /** A poll that returns is the poll that starts at the read result it
      stops at, with the buffer that read result found. */
  lemma {:induction false} NextItemFromStop(plugged: bool, line: string, outcomes: seq<ReadOutcome>)
    requires !NextItem(plugged, line, outcomes).polled.Pending?
    ensures StopsAt(plugged, line, outcomes)
    decreases |outcomes|
  {
    if Silent(plugged, line, outcomes[0]) {
      SilentHeadSkipped(plugged, line, outcomes);
      NextItemFromStop(plugged, [], outcomes[1..]);
      StopsAtAfterSilent(plugged, line, outcomes);
    } else {
      StopsAtHead(plugged, line, outcomes);
    }
  }

  /** A poll that returns an event returns the one emitted by the line it
      stopped at, classified with the buffer that line found. */
  lemma NextItemYieldsStep(plugged: bool, line: string, outcomes: seq<ReadOutcome>)
    requires NextItem(plugged, line, outcomes).polled.Yield?
    ensures var a := NextItem(plugged, line, outcomes); var k := Consumed(outcomes, a) - 1;
      && outcomes[k].Read?
      && Step(plugged, ReadLine(BufferAt(line, k), outcomes[k].data)) == Stepped(a.plugged, Some(a.polled.event))
  {
    var a := NextItem(plugged, line, outcomes);
    NextItemFromStop(plugged, line, outcomes);
    var k := Consumed(outcomes, a) - 1;
    var rest := outcomes[k..];
    assert rest[0] == outcomes[k] && rest[1..] == a.rest;
    var s := Step(plugged, ReadLine(BufferAt(line, k), rest[0].data));
    assert a == Advance(Yield(s.event.value), s.plugged, [], rest[1..]);
  }

  /** The read result a returning poll stops at is not silent: it is a
      zero-byte read exactly when the poll ends the stream, a failed read
      exactly when it returns an error, and otherwise a line that changes
      the state. */
  lemma NextItemStopsAtFirstAudible(plugged: bool, line: string, outcomes: seq<ReadOutcome>)
    requires !NextItem(plugged, line, outcomes).polled.Pending?
    ensures var a := NextItem(plugged, line, outcomes); var k := Consumed(outcomes, a) - 1;
      && !Silent(plugged, BufferAt(line, k), outcomes[k])
      && (a.polled.End? <==> outcomes[k] == Read(""))
      && (a.polled.Error? <==> outcomes[k].Failed?)
  {
    var a := NextItem(plugged, line, outcomes);
    var k := Consumed(outcomes, a) - 1;
    if a.polled.End? {
      NextItemEndKeepsBuffer(plugged, line, outcomes);
      assert outcomes[k] == Read("");
    } else if a.polled.Error? {
      NextItemErrorKeepsPartial(plugged, line, outcomes);
      assert outcomes[k].Failed?;
    } else {
      NextItemYieldsStep(plugged, line, outcomes);
      var data := outcomes[k].data;
      assert Step(plugged, ReadLine(BufferAt(line, k), data)).event.Some?;
      if data == "" {
        ForeignLineIgnored(plugged, ReadLine(BufferAt(line, k), data));
      }
    }
  }

  /** A zero-byte read ends the stream and a failed read returns its error,
      both without a change of state, and neither clears the line buffer:
      the failed read adds the text it kept to it. */
  lemma EndAndErrorKeepState(plugged: bool, line: string, partial: string, e: IoError, rest: seq<ReadOutcome>)
    ensures NextItem(plugged, line, [Read("")] + rest) == Advance(End, plugged, line, rest)
    ensures NextItem(plugged, line, [Failed(partial, e)] + rest) == Advance(Error(e), plugged, line + partial, rest)
  {
    assert ([Read("")] + rest)[1..] == rest;
    assert ([Failed(partial, e)] + rest)[1..] == rest;
  }

  // ---------------------------------------------------------------------
  // The stream

  /** A stream of power adapter plug events. `reader` stands for the socket
      reader: the read results it will deliver, in order. `line` is the
      buffer `read_line` appends to. */
  class AcPlugEvents {
    var reader: seq<ReadOutcome>
    var line: string
    var plugged: bool

    constructor (reader: seq<ReadOutcome>, plugged: bool)
      ensures this.reader == reader && this.line == [] && this.plugged == plugged
    {
      this.reader := reader;
      this.line := [];
      this.plugged := plugged;
    }

    /** `poll_next`: read lines until one emits an event, the stream ends,
        a read fails, or no read result is available. A `read_line` that
        cannot complete has moved the buffer's text into itself, and
        returning `Pending` drops it, so `line` is then empty. */
    method PollNext() returns (p: Polled)
      modifies this
      ensures NextItem(old(plugged), old(line), old(reader)) == Advance(p, plugged, line, reader)
    {
      while true
        invariant plugged == old(plugged)
        invariant NextItem(old(plugged), old(line), old(reader)) == NextItem(plugged, line, reader)
        decreases |reader|
      {
        if reader == [] {
          line := [];
          return Pending;
        }
        var outcome := reader[0];
        var buffer := line;
        ghost var current := reader;
        reader := reader[1..];
        assert current == [outcome] + reader;
        match outcome {
          case Failed(partial, why) =>
            line := line + partial;
            return Error(why);
          case Read(data) =>
            line := line + data;
            var read := |data|;
            if read == 0 {
              assert line == buffer;
              return End;
            }
            assert line[..read] == ReadLine(buffer, data);
            var readLine := Trim(line[..read]);
            if StartsWith(readLine, AdapterPrefix) {
              if plugged {
                if EndsWith(readLine, '0') {
                  plugged := false;
                  line := [];
                  return Yield(Unplugged);
                }
              } else if EndsWith(readLine, '1') {
                plugged := true;
                line := [];
                return Yield(Plugged);
              }
            }
            line := [];
        }
      }
    }
  }

  /** `AcPlugEvents::with_socket`: connect, then read the initial state; a
      failure of either is returned and no stream is made. */
  method WithSocket(connection: Result<seq<ReadOutcome>>, bat1: Result<string>, bat0: Result<string>)
    returns (r: Result<AcPlugEvents>)
    ensures connection.Err? ==> r == Err(connection.error)
    ensures connection.Ok? && InitialPlugged(bat1, bat0).Err? ==> r == Err(InitialPlugged(bat1, bat0).error)
    ensures connection.Ok? && InitialPlugged(bat1, bat0).Ok? ==>
      && r.Ok? && fresh(r.value) && r.value.line == []
      && r.value.reader == connection.value
      && r.value.plugged == InitialPlugged(bat1, bat0).value
  {
    match connection
    case Err(e) =>
      return Err(e);
    case Ok(stream) =>
      match InitialPlugged(bat1, bat0)
      case Err(e) =>
        return Err(e);
      case Ok(plugged) =>
        var events := new AcPlugEvents(stream, plugged);
        return Ok(events);
  }
}
