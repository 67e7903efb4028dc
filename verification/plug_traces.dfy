/** What a consumer of the stream sees over many polls: the stream polled
    until it ends or is pending, and the deduplication guarantee that the
    events it yields alternate, starting from the initial state. */
module PlugTraces {
  import opened StrOps
  import opened AcpidPlug

  /** The items returned by successive polls and the state left behind. */
  datatype Trace = Trace(items: seq<Polled>, plugged: bool)

  /** The stream polled again and again over the read results `outcomes`,
      starting with `line` in the line buffer, until it ends or has nothing
      left to read. Errors do not stop it: the stream is not fused, and the
      next poll reads again, with whatever the failed read left in the
      buffer. No item is `Pending`, and an end of stream can only be the
      last item. */
  function Run(plugged: bool, line: string, outcomes: seq<ReadOutcome>): (t: Trace)
    ensures forall i :: 0 <= i < |t.items| ==> !t.items[i].Pending?
    ensures forall i :: 0 <= i < |t.items| - 1 ==> !t.items[i].End?
    decreases |outcomes|
  {
    var a := NextItem(plugged, line, outcomes);
    match a.polled
    case Pending => Trace([], plugged)
    case End => Trace([End], plugged)
    case _ =>
      var t := Run(a.plugged, a.line, a.rest);
      Trace([a.polled] + t.items, t.plugged)
  }

  /** The events among the items, in order. */
  function Events(items: seq<Polled>): seq<Event> {
    if items == [] then []
    else (if items[0].Yield? then [items[0].event] else []) + Events(items[1..])
  }

  /** The events flip the state one at a time, starting from `plugged`. */
  predicate Alternates(plugged: bool, events: seq<Event>)
    decreases |events|
  {
    events == [] || (events[0] == EventFor(!plugged) && Alternates(!plugged, events[1..]))
  }

  /** The state announced by the last event, or `plugged` if there is none. */
  function LastState(plugged: bool, events: seq<Event>): bool {
    if events == [] then plugged else events[|events| - 1] == Plugged
  }

  lemma EventsCons(item: Polled, items: seq<Polled>)
    ensures Events([item] + items) == (if item.Yield? then [item.event] else []) + Events(items)
  {
    assert ([item] + items)[1..] == items;
  }

  /** One more poll in front of a run keeps the run's events alternating,
      as long as that poll returned an event that flips the state or an
      error that keeps it. */
  lemma ConsAlternates(plugged: bool, a: Advance, t: Trace)
    requires a.polled.Yield? || a.polled.Error?
    requires a.polled.Yield? ==> a.plugged != plugged && a.polled.event == EventFor(a.plugged)
    requires a.polled.Error? ==> a.plugged == plugged
    requires Alternates(a.plugged, Events(t.items))
    requires t.plugged == LastState(a.plugged, Events(t.items))
    ensures Alternates(plugged, Events([a.polled] + t.items))
    ensures t.plugged == LastState(plugged, Events([a.polled] + t.items))
  {
    EventsCons(a.polled, t.items);
    if a.polled.Yield? {
      var events := Events(t.items);
      assert ([a.polled.event] + events)[1..] == events;
    } else {
      assert [] + Events(t.items) == Events(t.items);
    }
  }

  /** Deduplication over a whole run: the events alternate in polarity, the
      first being the opposite of the initial state, and the state the
      stream is left in is the one the last event announced. */
  lemma {:induction false} RunAlternates(plugged: bool, line: string, outcomes: seq<ReadOutcome>)
    ensures Alternates(plugged, Events(Run(plugged, line, outcomes).items))
    ensures Run(plugged, line, outcomes).plugged == LastState(plugged, Events(Run(plugged, line, outcomes).items))
    decreases |outcomes|
  {
    var a := NextItem(plugged, line, outcomes);
    if a.polled.End? {
      EventsCons(End, []);
    } else if !a.polled.Pending? {
      RunAlternates(a.plugged, a.line, a.rest);
      ConsAlternates(plugged, a, Run(a.plugged, a.line, a.rest));
    }
  }

  /** The recursive `Alternates` says exactly this: the first event is not
      the initial state's, and no event repeats the one before it. */
  lemma {:induction false} AlternatesIffNoRepeat(plugged: bool, events: seq<Event>)
    ensures Alternates(plugged, events) <==>
      && (events != [] ==> events[0] != EventFor(plugged))
      && (forall i :: 0 <= i < |events| - 1 ==> events[i] != events[i + 1])
    decreases |events|
  {
    if events != [] {
      var tail := events[1..];
      AlternatesIffNoRepeat(!plugged, tail);
      assert forall i :: 0 <= i < |tail| ==> tail[i] == events[i + 1];
      if Alternates(plugged, events) {
        forall i | 0 <= i < |events| - 1
          ensures events[i] != events[i + 1]
        {
          if i > 0 {
            assert tail[i - 1] != tail[i];
          }
        }
      }
    }
  }

  /** The scenario of an unplugged laptop: a redundant off-line record is
      skipped without returning, and the on-line record that follows is
      returned as `Plugged`, whatever the text between the prefix and the
      final digit. */
  lemma RedundantThenPlugged(body: string)
    ensures Run(false, [], [Read(AdapterPrefix + body + ['0'] + "\n"), Read(AdapterPrefix + body + ['1'] + "\n")])
      == Trace([Yield(Plugged)], true)
  {
    var off := Read(AdapterPrefix + body + ['0'] + "\n");
    var on := Read(AdapterPrefix + body + ['1'] + "\n");
    AdapterRecordStep(false, body, '0', "\n");
    AdapterRecordStep(false, body, '1', "\n");
    AdapterRecordStep(true, body, '1', "\n");
    var outcomes := [off, on];
    assert outcomes[1..] == [on];
    assert [on][1..] == [];
    assert NextItem(false, [], outcomes) == Advance(Yield(Plugged), true, [], []);
  }

  /** A failed read that left text in the buffer not starting like
      `ac_adapter` costs the next line its event: the buffer is not cleared
      after the error, so the next line is classified on the stale text
      followed by the start of the new line. Unplugged, an on-line record
      read after such a failure yields nothing and the stream stays
      unplugged. */
  lemma FailedReadHidesNextRecord(partial: string, e: IoError, body: string)
    requires partial != [] && !IsSpace(partial[0]) && partial[0] != AdapterPrefix[0]
    ensures Run(false, [], [Failed(partial, e), Read(AdapterPrefix + body + ['1'] + "\n")])
      == Trace([Error(e)], false)
  {
    var on := Read(AdapterPrefix + body + ['1'] + "\n");
    var outcomes := [Failed(partial, e), on];
    assert outcomes[1..] == [on];
    assert [on][1..] == [];
    assert [] + partial == partial;
    StaleTextHidesLine(false, partial, on.data);
    assert NextItem(false, [], outcomes) == Advance(Error(e), false, partial, [on]);
    assert NextItem(false, partial, [on]) == Advance(Pending, false, [], []);
  }
}
