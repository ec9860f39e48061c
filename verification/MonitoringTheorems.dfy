/** What the monitored histories guarantee: every sample counted once, ordered windows, exact retention. */
module MonitoringTheorems {
  import opened CanTypes
  import opened Monitoring

  // ----- What one event does

  /** The first value of the name, or nothing. */
  ghost predicate IsSample(values: seq<SignalValue>, name: string, sample: seq<real>) {
    (|sample| == 1 && IsFirstValue(values, name, sample[0])) || (sample == [] && Unnamed(values, name))
  }

  lemma SampleIsFirst(values: seq<SignalValue>, name: string)
    ensures IsSample(values, name, SampleOf(values, name))
  {
    FirstValueByIndex(values, name);
  }

  /** A window is 50 ms old or older. */
  predicate IsDue(b: Book, t: int) {
    b.start >= 0 && t - b.start >= 50_000_000
  }

  /**
   A frame closes the open window exactly if that is due, and then the next window starts with this frame; without an
   open window the frame opens one.  Its samples are the last of the window that is then open.
   */
  lemma FrameTakesItsWindow(names: seq<string>, events: seq<Event>, t: int, values: seq<SignalValue>, k: nat)
    requires k < |names|
    ensures var b, a := History(names, events), History(names, events + [Received(t, values)]);
            && a.erased == b.erased && |a.open| == |b.open| == |names|
            && a.flushed == b.flushed + (if IsDue(b, t) then [Window(b.start, t, b.open)] else [])
            && a.start == (if IsDue(b, t) || b.start < 0 then t else b.start)
            && IsSample(values, names[k], SampleOf(values, names[k]))
            && a.open[k] == (if IsDue(b, t) then [] else b.open[k]) + SampleOf(values, names[k])
  {
    hide SampleOf, IsSample;
    assert (events + [Received(t, values)])[..|events|] == events;
    SampleIsFirst(values, names[k]);
  }

  /** A refresh of the display closes the window that is due and opens none. */
  lemma RefreshClosesDueWindow(names: seq<string>, events: seq<Event>, now: int)
    ensures var b, a := History(names, events), History(names, events + [Refreshed(now)]);
            if IsDue(b, now) then
              && a.start == -1 && a.erased == b.erased && a.flushed == b.flushed + [Window(b.start, -1, b.open)]
              && |a.open| == |names| && forall k | 0 <= k < |names| :: a.open[k] == []
            else a == b
  {
    assert (events + [Refreshed(now)])[..|events|] == events;
  }

  predicate IsLastDefinition(messages: seq<Message>, id: nat, i: nat) {
    i < |messages| && messages[i].id == id && forall j | i < j < |messages| :: messages[j].id != id
  }

  /** An entry has the signals of the last definition of its identifier. */
  lemma {:induction false} NamesOfLastDefinition(messages: seq<Message>, id: nat, i: nat)
    requires IsLastDefinition(messages, id, i)
    ensures var names, signals := NamesFor(messages, id), messages[i].signals;
            |names| == |signals| && forall k | 0 <= k < |signals| :: names[k] == signals[k].name
  {
    if i < |messages| - 1 { NamesOfLastDefinition(messages[..|messages| - 1], id, i); }
  }

  /** Without a definition it has none. */
  lemma {:induction false} NoNamesWithoutDefinition(messages: seq<Message>, id: nat)
    requires forall m | m in messages :: m.id != id
    ensures NamesFor(messages, id) == []
  {
    if messages != [] {
      assert messages[|messages| - 1] in messages;
      NoNamesWithoutDefinition(messages[..|messages| - 1], id);
    }
  }

  // ----- Conservation

  /** All samples of a signal that the events carry, in order. */
  function Observed(events: seq<Event>, name: string): seq<real> {
    if events == [] then []
    else
      var last := events[|events| - 1];
      Observed(events[..|events| - 1], name) + if last.Received? then SampleOf(last.values, name) else []
  }

  /** The samples of a signal in closed windows, window after window. */
  function InWindows(ws: seq<Window>, k: nat): seq<real>
    requires forall w | w in ws :: k < |w.samples|
  {
    if ws == [] then [] else InWindows(ws[..|ws| - 1], k) + ws[|ws| - 1].samples[k]
  }

  lemma FlushKeepsSamples(b: Book, newStart: int, k: nat)
    requires Sound(b) && k < |b.names|
    ensures InWindows(Flushed(b, newStart).flushed, k) == InWindows(b.flushed, k) + b.open[k]
    ensures Flushed(b, newStart).open[k] == []
  {
    var closed := Window(b.start, newStart, b.open);
    assert (b.flushed + [closed])[..|b.flushed|] == b.flushed;
  }

  /** One event adds exactly its own sample. */
  lemma EventKeepsSamples(b: Book, e: Event, k: nat)
    requires Sound(b) && k < |b.names|
    ensures InWindows(After(b, e).flushed, k) + After(b, e).open[k]
            == InWindows(b.flushed, k) + b.open[k] + if e.Received? then SampleOf(e.values, b.names[k]) else []
  {
    hide InWindows, SampleOf, OldPrefix;
    match e
    case Received(t, values) =>
      var sample := SampleOf(values, b.names[k]);
      var started := if b.start < 0 then b.(start := t) else b;
      FlushKeepsSamples(started, t, k);
      var o := Opened(b, t);
      assert InWindows(o.flushed, k) + o.open[k] == InWindows(b.flushed, k) + b.open[k];
      assert InWindows(o.flushed, k) + (o.open[k] + sample) == InWindows(o.flushed, k) + o.open[k] + sample;
    case Refreshed(now) =>
      FlushKeepsSamples(b, -1, k);
    case Cleaned(now) =>
  }

  /** Every observed sample is in exactly one window, in the order of arrival: closed ones, then the open one. */
  lemma {:induction false} EverySampleInOneWindow(names: seq<string>, events: seq<Event>, k: nat)
    requires k < |names|
    ensures var b := History(names, events); InWindows(b.flushed, k) + b.open[k] == Observed(events, names[k])
    decreases |events|
  {
    hide After, InWindows, SampleOf;
    if events == [] {
      assert InWindows([], k) == [] by { NoWindows(k); }
    } else {
      var init, last := events[..|events| - 1], events[|events| - 1];
      EverySampleInOneWindow(names, init, k);
      EventKeepsSamples(History(names, init), last, k);
    }
  }

  lemma NoWindows(k: nat)
    ensures InWindows([], k) == []
  {
  }

  /** The sum over the closed windows of sample count times stored mean. */
  function Weighted(ws: seq<Window>, k: nat): real
    requires forall w | w in ws :: k < |w.samples|
  {
    if ws == [] then 0.0
    else
      var samples := ws[|ws| - 1].samples[k];
      var mean := Mean(samples);
      Weighted(ws[..|ws| - 1], k) + if mean.Some? then |samples| as real * mean.value else 0.0
  }

  lemma {:induction false} WeightedIsSum(ws: seq<Window>, k: nat)
    requires forall w | w in ws :: k < |w.samples|
    ensures Weighted(ws, k) == Sum(InWindows(ws, k))
  {
    hide Sum;
    if ws == [] {
      assert Sum([]) == 0.0 by { NoSum(); }
    } else {
      var samples := ws[|ws| - 1].samples[k];
      WeightedIsSum(ws[..|ws| - 1], k);
      SumConcat(InWindows(ws[..|ws| - 1], k), samples);
      if samples == [] { NoSum(); } else { MeanTimesCount(samples); }
    }
  }

  lemma NoSum()
    ensures Sum([]) == 0.0
  {
  }

  lemma MeanTimesCount(samples: seq<real>)
    requires samples != []
    ensures Mean(samples) == Some(Sum(samples) / |samples| as real)
            && |samples| as real * (Sum(samples) / |samples| as real) == Sum(samples)
  {
  }

  /** Conservation: the weighted means plus the open sum are the sum of all observed samples. */
  lemma SamplesAreConserved(names: seq<string>, events: seq<Event>, k: nat)
    requires k < |names|
    ensures var b := History(names, events);
            Weighted(b.flushed, k) + Stored(b).windowSum[k] == Sum(Observed(events, names[k]))
  {
    hide History, Weighted, InWindows, Sum, Observed;
    var b := History(names, events);
    EverySampleInOneWindow(names, events, k);
    WeightedIsSum(b.flushed, k);
    SumConcat(InWindows(b.flushed, k), b.open[k]);
  }

  // ----- Order and distance of windows

  /** Receive times that are not negative and do not go back. */
  predicate Ordered(events: seq<Event>) {
    forall i, j | 0 <= i <= j < |events| && events[i].Received? && events[j].Received? ::
        0 <= events[i].time <= events[j].time
  }

  /** No window starts after t, and a window that is open has a start. */
  predicate NotAfter(b: Book, t: int) {
    b.start <= t && forall w | w in b.flushed :: w.start <= t
  }

  function LastReceived(events: seq<Event>): (t: int)
    ensures t >= -1 || exists e | e in events :: e.Received? && e.time == t
  {
    if events == [] then -1
    else
      var last := events[|events| - 1];
      if last.Received? then last.time else LastReceived(events[..|events| - 1])
  }

  /** A window that a frame closed ends where the next one starts, at least 50 ms later. */
  predicate Linked(w: Window, nextStart: int) {
    0 <= w.start <= nextStart && (w.until >= 0 ==> w.until == nextStart && nextStart - w.start >= WINDOW_NS)
  }

  predicate Chained(b: Book) {
    && (forall i | 0 <= i < |b.flushed| - 1 :: Linked(b.flushed[i], b.flushed[i + 1].start))
    && (b.flushed != [] ==>
          var w := b.flushed[|b.flushed| - 1];
          w.start >= 0 && (if b.start < 0 then w.until == -1 else Linked(w, b.start)))
    && b.start >= -1
  }

  lemma LastIsBound(events: seq<Event>, t: int)
    requires forall e | e in events && e.Received? :: 0 <= e.time <= t
    requires t >= -1
    ensures -1 <= LastReceived(events) <= t
    decreases |events|
  {
    if events != [] {
      LastIsBound(events[..|events| - 1], t);
      assert events[|events| - 1] in events;
    }
  }

  /** Windows stay in order, and those closed by frames start at least 50 ms apart. */
  lemma {:induction false} WindowsAreChained(names: seq<string>, events: seq<Event>)
    requires Ordered(events)
    ensures Chained(History(names, events)) && NotAfter(History(names, events), LastReceived(events))
    decreases |events|
  {
    hide SampleOf, OldPrefix, Chained, NotAfter;
    if events == [] {
      EmptyIsChained(names);
    } else {
      var init, last := events[..|events| - 1], events[|events| - 1];
      WindowsAreChained(names, init);
      var b := History(names, init);
      match last
      case Received(t, values) =>
        forall e | e in init && e.Received?
          ensures 0 <= e.time <= t
        {
          var i :| 0 <= i < |init| && init[i] == e;
          assert events[i] == e;
        }
        assert 0 <= t by { assert events[|events| - 1].Received?; }
        LastIsBound(init, t);
        OpenedIsChained(b, t, LastReceived(init), values);
      case Refreshed(now) => StaleIsChained(b, now, LastReceived(init));
      case Cleaned(now) => ErasedIsChained(b, now, LastReceived(init));
    }
  }

  lemma EmptyIsChained(names: seq<string>)
    ensures Chained(Empty(names)) && NotAfter(Empty(names), -1)
  {
  }

  lemma FlushIsChained(b: Book, newStart: int)
    requires Sound(b) && Chained(b) && b.start >= 0
    requires newStart == -1 || newStart - b.start >= WINDOW_NS
    ensures Chained(Flushed(b, newStart))
  {
    var f := Flushed(b, newStart).flushed;
    forall i | 0 <= i < |f| - 1
      ensures Linked(f[i], f[i + 1].start)
    {
    }
  }

  lemma OpenedIsChained(b: Book, t: int, last: int, values: seq<SignalValue>)
    requires Sound(b) && Chained(b) && NotAfter(b, last) && last <= t && 0 <= t
    ensures var after := After(b, Received(t, values)); Chained(after) && NotAfter(after, t)
  {
    hide SampleOf, Linked;
    if b.start < 0 {
      StartIsChained(b, t);
    }
    var started := if b.start < 0 then b.(start := t) else b;
    if t - started.start >= WINDOW_NS { FlushIsChained(started, t); }
    var after := After(b, Received(t, values));
    assert after.flushed == Opened(b, t).flushed && after.start == Opened(b, t).start;
  }

  lemma StartIsChained(b: Book, t: int)
    requires Sound(b) && Chained(b) && NotAfter(b, t) && b.start < 0 <= t
    ensures Chained(b.(start := t))
  {
  }

  lemma StaleIsChained(b: Book, now: int, last: int)
    requires Sound(b) && Chained(b) && NotAfter(b, last) && last >= -1
    ensures Chained(After(b, Refreshed(now))) && NotAfter(After(b, Refreshed(now)), last)
  {
    hide Linked;
    if b.start >= 0 && now - b.start >= WINDOW_NS { FlushIsChained(b, -1); }
  }

  lemma ErasedIsChained(b: Book, now: int, last: int)
    requires Sound(b) && Chained(b) && NotAfter(b, last)
    ensures Chained(After(b, Cleaned(now))) && NotAfter(After(b, Cleaned(now)), last)
  {
    hide OldPrefix;
  }

  lemma {:induction false} StartsAreSorted(b: Book, i: nat, j: nat)
    requires Chained(b) && i <= j < |b.flushed|
    ensures b.flushed[i].start <= b.flushed[j].start
    decreases j
  {
    if i < j {
      StartsAreSorted(b, i, j - 1);
      assert Linked(b.flushed[j - 1], b.flushed[j - 1 + 1].start);
    }
  }

  /** The stored timestamps are sorted. */
  lemma TimestampsAreSorted(names: seq<string>, events: seq<Event>)
    requires Ordered(events)
    ensures var ts := Stored(History(names, events)).timestamps; forall i, j | 0 <= i <= j < |ts| :: ts[i] <= ts[j]
  {
    hide History, Chained;
    WindowsAreChained(names, events);
    var b := History(names, events);
    forall i: nat, j: nat | i <= j < |b.flushed|
      ensures b.flushed[i].start <= b.flushed[j].start
    {
      StartsAreSorted(b, i, j);
    }
  }

  /** The windows, and the open one behind them, start at least 50 ms apart. */
  predicate Spaced(b: Book) {
    && (forall i | 0 <= i < |b.flushed| - 1 :: b.flushed[i + 1].start - b.flushed[i].start >= WINDOW_NS)
    && (b.start >= 0 && b.flushed != [] ==> b.start - b.flushed[|b.flushed| - 1].start >= WINDOW_NS)
  }

  /** A frame that arrives while no window is open comes 50 ms or more after the start of the last one. */
  predicate ReopensInTime(b: Book, e: Event) {
    e.Received? && b.start < 0 && b.flushed != [] ==> e.time - b.flushed[|b.flushed| - 1].start >= WINDOW_NS
  }

  lemma FlushIsSpaced(b: Book, newStart: int)
    requires Sound(b) && b.start >= 0
    requires newStart == -1 || newStart - b.start >= WINDOW_NS
    ensures Spaced(Flushed(b, newStart)) <==> Spaced(b)
  {
    var f := Flushed(b, newStart).flushed;
    if Spaced(b) {
      forall i | 0 <= i < |f| - 1
        ensures f[i + 1].start - f[i].start >= WINDOW_NS
      {
      }
    }
    if Spaced(Flushed(b, newStart)) {
      forall i | 0 <= i < |b.flushed| - 1
        ensures b.flushed[i + 1].start - b.flushed[i].start >= WINDOW_NS
      {
        assert f[i + 1].start - f[i].start >= WINDOW_NS;
      }
      if b.flushed != [] { assert f[|b.flushed| - 1 + 1].start - f[|b.flushed| - 1].start >= WINDOW_NS; }
    }
  }

  lemma OpenedIsSpaced(b: Book, e: Event)
    requires Sound(b) && e.Received? && e.time >= 0
    ensures Spaced(Opened(b, e.time)) <==> Spaced(b) && ReopensInTime(b, e)
  {
    hide Flushed;
    if b.start >= 0 && e.time - b.start >= WINDOW_NS { FlushIsSpaced(b, e.time); }
  }

  lemma EventIsSpaced(b: Book, e: Event)
    requires Sound(b) && (e.Received? ==> e.time >= 0)
    ensures Spaced(After(b, e)) <==> Spaced(b) && ReopensInTime(b, e)
  {
    hide SampleOf, OldPrefix, Opened, Flushed;
    match e
    case Received(t, values) =>
      OpenedIsSpaced(b, e);
      assert After(b, e).flushed == Opened(b, t).flushed && After(b, e).start == Opened(b, t).start;
    case Refreshed(now) =>
      if b.start >= 0 && now - b.start >= WINDOW_NS { FlushIsSpaced(b, -1); }
    case Cleaned(now) =>
  }

  /** The n-th event of a run, against the history before it. */
  predicate ReopensAt(names: seq<string>, events: seq<Event>, n: nat)
    requires n < |events|
  {
    ReopensInTime(History(names, events[..n]), events[n])
  }

  /** Every frame of the run that finds no window open arrives in time. */
  ghost predicate AlwaysReopensInTime(names: seq<string>, events: seq<Event>) {
    forall n | 0 <= n < |events| :: ReopensAt(names, events, n)
  }

  lemma ReopensInPrefix(names: seq<string>, events: seq<Event>, m: nat, n: nat)
    requires n < m <= |events|
    ensures ReopensAt(names, events[..m], n) == ReopensAt(names, events, n)
  {
    assert events[..m][..n] == events[..n];
  }

  lemma AlwaysAndOnceMore(names: seq<string>, events: seq<Event>)
    requires events != []
    ensures var last := |events| - 1;
            AlwaysReopensInTime(names, events) <==>
              AlwaysReopensInTime(names, events[..last]) && ReopensAt(names, events, last)
  {
    hide ReopensAt;
    var last := |events| - 1;
    forall n | 0 <= n < last
      ensures ReopensAt(names, events[..last], n) == ReopensAt(names, events, n)
    {
      ReopensInPrefix(names, events, last, n);
    }
  }

  /** The windows start at least 50 ms apart exactly if no frame reopens a window too early. */
  lemma {:induction false} SpacedIffReopenedInTime(names: seq<string>, events: seq<Event>)
    requires Ordered(events)
    ensures Spaced(History(names, events)) <==> AlwaysReopensInTime(names, events)
    decreases |events|
  {
    hide After, Spaced, ReopensInTime, AlwaysReopensInTime;
    if events == [] {
      EmptyIsSpaced(names);
    } else {
      var last := |events| - 1;
      SpacedIffReopenedInTime(names, events[..last]);
      assert events[last].Received? ==> events[last].time >= 0;
      EventIsSpaced(History(names, events[..last]), events[last]);
      AlwaysAndOnceMore(names, events);
    }
  }

  lemma EmptyIsSpaced(names: seq<string>)
    ensures Spaced(History(names, [])) && AlwaysReopensInTime(names, [])
  {
  }

  /** The closed windows start at least 50 ms before t. */
  predicate Behind(b: Book, t: int) {
    forall w | w in b.flushed :: t - w.start >= WINDOW_NS
  }

  predicate NoneBefore(events: seq<Event>, t: int) {
    forall e | e in events :: (e.Refreshed? ==> e.now <= t) && (e.Received? ==> 0 <= e.time <= t)
  }

  /** Any moment that follows all events is 50 ms or more after the start of every closed window. */
  lemma {:induction false} ClosedWindowsAreBehind(names: seq<string>, events: seq<Event>, t: int)
    requires NoneBefore(events, t)
    ensures Behind(History(names, events), t)
    decreases |events|
  {
    hide SampleOf, OldPrefix;
    if events != [] {
      var init, last := events[..|events| - 1], events[|events| - 1];
      ClosedWindowsAreBehind(names, init, t);
      assert last in events;
    }
  }

  /** Frames are not received before the last refresh of the display. */
  predicate Synchronised(events: seq<Event>) {
    forall i, j | 0 <= i < j < |events| && events[i].Refreshed? && events[j].Received? ::
        events[i].now <= events[j].time
  }

  lemma SynchronisedReopensInTime(names: seq<string>, events: seq<Event>, n: nat)
    requires Ordered(events) && Synchronised(events) && n < |events|
    ensures ReopensAt(names, events, n)
  {
    hide History;
    var init, e := events[..n], events[n];
    if e.Received? {
      forall f | f in init
        ensures (f.Refreshed? ==> f.now <= e.time) && (f.Received? ==> 0 <= f.time <= e.time)
      {
        var i :| 0 <= i < |init| && init[i] == f;
        assert events[i] == f;
      }
      ClosedWindowsAreBehind(names, init, e.time);
      var b := History(names, init);
      if b.flushed != [] { assert b.flushed[|b.flushed| - 1] in b.flushed; }
    }
  }

  /** With synchronised clocks all windows start at least 50 ms apart, however they were closed. */
  lemma WindowsAreSpaced(names: seq<string>, events: seq<Event>)
    requires Ordered(events) && Synchronised(events)
    ensures Spaced(History(names, events))
  {
    hide History, Spaced, ReopensAt, Ordered, Synchronised;
    SpacedIffReopenedInTime(names, events);
    forall n | 0 <= n < |events|
      ensures ReopensAt(names, events, n)
    {
      SynchronisedReopensInTime(names, events, n);
    }
  }

  /** A frame that reopens a window too early: two windows start 10 ns apart. */
  lemma LateFrameSplitsWindow(names: seq<string>)
    ensures var events := [Received(0, []), Refreshed(WINDOW_NS), Received(10, []), Refreshed(WINDOW_NS + 10)];
            Ordered(events) && !AlwaysReopensInTime(names, events)
                && Stored(History(names, events)).timestamps == [0, 10]
  {
    var e1, e2, e3 := Received(0, []), Refreshed(WINDOW_NS), Received(10, []);
    var events := [e1, e2, e3, Refreshed(WINDOW_NS + 10)];
    assert events[..3] == [e1, e2, e3];
    assert [e1, e2, e3][..2] == [e1, e2];
    assert [e1, e2][..1] == [e1];
    var none: seq<Event> := [];
    assert [e1][..0] == none;
    assert History(names, none) == Empty(names);
    var b1 := History(names, [e1]);
    assert b1 == After(Empty(names), e1);
    var b2 := History(names, [e1, e2]);
    assert b2.start == -1 && Starts(b2.flushed) == [0] && b2.erased == 0;
    assert events[..2] == [e1, e2];
    assert !ReopensAt(names, events, 2);
    var b3 := History(names, [e1, e2, e3]);
    assert b3.start == 10 && Starts(b3.flushed) == [0] && b3.erased == 0;
    var b4 := History(names, events);
    assert b4.erased == 0 && Starts(b4.flushed) == [0, 10];
    assert b4.flushed[0..] == b4.flushed;
  }

  // ----- Retention

  /** Cleaning removes a stored row exactly if that row and all stored rows in front of it are older than 60 s. */
  lemma CleaningRemovesOldFront(names: seq<string>, events: seq<Event>, now: int, i: nat)
    requires var b := History(names, events); b.erased <= i < |b.flushed|
    ensures var b, c := History(names, events), History(names, events + [Cleaned(now)]);
            && c.flushed == b.flushed && b.erased <= c.erased
            && (i < c.erased <==> forall k | b.erased <= k <= i :: b.flushed[k].start + 60_000_000_000 < now)
  {
    hide OldPrefix;
    assert (events + [Cleaned(now)])[..|events|] == events;
    var b := History(names, events);
    var ws := b.flushed[b.erased..];
    var n := OldPrefix(ws, now);
    forall k | b.erased <= k < |b.flushed|
      ensures ws[k - b.erased] == b.flushed[k]
    {
    }
    if i < b.erased + n {
      forall k | b.erased <= k <= i
        ensures IsOld(b.flushed[k], now)
      {
        assert IsOld(ws[k - b.erased], now);
      }
    } else {
      assert !IsOld(ws[n], now) && ws[n] == b.flushed[b.erased + n];
    }
  }

  /** With ordered receive times, cleaning removes exactly the stored rows that are older than 60 s. */
  lemma CleaningIsExact(names: seq<string>, events: seq<Event>, now: int, i: nat)
    requires Ordered(events)
    requires var b := History(names, events); b.erased <= i < |b.flushed|
    ensures var b, c := History(names, events), History(names, events + [Cleaned(now)]);
            && c.flushed == b.flushed && b.erased <= c.erased
            && (i < c.erased <==> b.flushed[i].start + 60_000_000_000 < now)
  {
    hide History, Chained, Ordered;
    CleaningRemovesOldFront(names, events, now, i);
    WindowsAreChained(names, events);
    var b := History(names, events);
    forall k | b.erased <= k <= i
      ensures b.flushed[k].start <= b.flushed[i].start
    {
      StartsAreSorted(b, k, i);
    }
  }

  /** Rows leave from the front only and never come back: a stored row is one that was closed. */
  lemma {:induction false} RowsAreNeverReordered(names: seq<string>, events: seq<Event>, more: seq<Event>)
    ensures var b, c := History(names, events), History(names, events + more);
            b.flushed <= c.flushed && b.erased <= c.erased
    decreases |more|
  {
    hide SampleOf, OldPrefix;
    if more == [] {
      assert events + more == events;
    } else {
      var init := more[..|more| - 1];
      RowsAreNeverReordered(names, events, init);
      assert (events + more)[..|events + more| - 1] == events + init;
    }
  }
}
