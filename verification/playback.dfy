/** Playback control: the suspend/resume toggle, the session rebuild on a
    button press, and the press/release handlers
    (src/lightplayer.cpp:141-164, 168-551).

    The audio sink is not part of this model. The controller only sees the
    state the sink reports; `Sink` says which state a new sink reports and
    which state it reports after each command. */
module Playback {
  import opened ToneTable
  import PcmLayout

  datatype Option<T> = None | Some(value: T)

  /** QAudio::State as the sink reports it. */
  datatype SinkState = ActiveState | SuspendedState | StoppedState | IdleState

  /** The sink methods the toggle can call. */
  datatype SinkCall = Resume | Suspend

  /** What the controller asks of a sink: `start(generator)` or a toggle call. */
  datatype SinkCommand = StartPull | Call(call: SinkCall)

  /** The sink's observable behaviour: the state a new sink reports, and the
      state it reports after each command. */
  datatype Sink = Sink(initial: SinkState, react: (SinkState, SinkCommand) -> SinkState)

  /** One observable step of the controller, in program order. `Toggle`
      records the state read from the sink and the call it led to, if any. */
  datatype Step =
    | DeleteGenerator
    | DeleteOutput
    | NewGenerator(durationUs: int, toneHz: int)
    | NewOutput
    | StartGenerator
    | StartOutput
    | Toggle(observed: SinkState, call: Option<SinkCall>)
  {
    predicate IsTeardown() { DeleteGenerator? || DeleteOutput? }
    predicate IsBuild() { NewGenerator? || NewOutput? || StartGenerator? || StartOutput? }
  }

  /** The controller's state: the global `ToneSampleRateHz`, and the state
      the current sink reports, `None` while `m_audioOutput` is null. */
  datatype Player = Player(toneHz: int, sink: Option<SinkState>)

  /** The call `toggleSuspendResume` makes for the state it reads; at most one. */
  function ToggleCall(s: SinkState): (c: Option<SinkCall>)
    ensures c == None <==> s == IdleState
    ensures c == Some(Suspend) <==> s == ActiveState
    ensures c == Some(Resume) <==> (s == SuspendedState || s == StoppedState)
  {
    match s
    case SuspendedState => Some(Resume)
    case ActiveState => Some(Suspend)
    case StoppedState => Some(Resume)
    case IdleState => None
  }

  /** The state the sink reports after an optional call. */
  function AfterCall(sink: Sink, s: SinkState, c: Option<SinkCall>): SinkState
  {
    match c
    case None => s
    case Some(call) => sink.react(s, Call(call))
  }

  /** `toggleSuspendResume`: read the sink's state and make the table's call. */
  function ToggleSuspendResume(sink: Sink, s: SinkState): (r: (SinkState, Step))
    ensures r.1.Toggle? && r.1.observed == s
    ensures r.1.call == ToggleCall(s) && r.0 == AfterCall(sink, s, r.1.call)
    ensures s == IdleState ==> r.0 == s && r.1.call == None
  {
    var c := ToggleCall(s);
    (AfterCall(sink, s, c), Toggle(s, c))
  }

  /** The six steps of a session rebuild for `toneHz`, each exactly once:
      both deletes, both constructions and both starts. */
  function RebuildSteps(toneHz: int): multiset<Step>
  {
    multiset{DeleteGenerator, DeleteOutput, NewGenerator(PcmLayout.SessionDurationUs, toneHz),
             NewOutput, StartGenerator, StartOutput}
  }

  /** The phase of a rebuild a step belongs to: teardown, construction,
      generator start, sink start, toggle. */
  function Phase(s: Step): (n: nat)
    ensures n <= 4
  {
    match s
    case DeleteGenerator => 0
    case DeleteOutput => 0
    case NewGenerator(_, _) => 1
    case NewOutput => 1
    case StartGenerator => 2
    case StartOutput => 3
    case Toggle(_, _) => 4
  }

  /** A trace never returns to an earlier phase: no step belongs to an
      earlier phase than the one before it. */
  predicate InPhaseOrder(t: seq<Step>)
  {
    forall i :: 0 < i < |t| ==> Phase(t[i - 1]) <= Phase(t[i])
  }

  /** In a trace in phase order, a later step never belongs to an earlier phase. */
  lemma {:induction false} PhaseMonotone(t: seq<Step>, i: nat, j: nat)
    requires InPhaseOrder(t) && i <= j < |t|
    ensures Phase(t[i]) <= Phase(t[j])
    decreases j - i
  {
    if i < j {
      PhaseMonotone(t, i, j - 1);
    }
  }

  /** Nothing of the old session is released after the new one is being built. */
  predicate TeardownBeforeBuild(t: seq<Step>)
  {
    forall i, j :: 0 <= i < |t| && 0 <= j < |t| && t[i].IsTeardown() && t[j].IsBuild() ==> i < j
  }

  /** Each object is constructed before it is started, the generator is
      started before the sink is started on it, and both before any toggle. */
  predicate StartOrder(t: seq<Step>)
  {
    && (forall i, j :: 0 <= i < |t| && 0 <= j < |t| && t[i].NewGenerator? && t[j].StartGenerator? ==> i < j)
    && (forall i, j :: 0 <= i < |t| && 0 <= j < |t| && t[i].NewOutput? && t[j].StartOutput? ==> i < j)
    && (forall i, j :: 0 <= i < |t| && 0 <= j < |t| && t[i].StartGenerator? && t[j].StartOutput? ==> i < j)
    && (forall i, j :: 0 <= i < |t| && 0 <= j < |t| && t[i].StartOutput? && t[j].Toggle? ==> i < j)
  }

  /** Every toggle made the call the table gives for the state it read. */
  predicate TogglesFollowTable(t: seq<Step>)
  {
    forall i :: 0 <= i < |t| && t[i].Toggle? ==> t[i].call == ToggleCall(t[i].observed)
  }

  /** A trace in phase order tears down before it builds and starts each
      object after constructing it, the generator before the sink. */
  lemma PhaseOrderMeaning(t: seq<Step>)
    requires InPhaseOrder(t)
    ensures TeardownBeforeBuild(t) && StartOrder(t)
  {
    forall i, j | 0 <= j <= i < |t|
      ensures Phase(t[j]) <= Phase(t[i])
    {
      PhaseMonotone(t, j, i);
    }
  }

  /** A toggle that follows the table, appended to a trace in phase order,
      keeps the trace in phase order and following the table, and adds one
      to its toggle count. */
  lemma AppendToggle(t: seq<Step>, s: Step)
    requires InPhaseOrder(t) && TogglesFollowTable(t)
    requires s.Toggle? && s.call == ToggleCall(s.observed)
    ensures InPhaseOrder(t + [s]) && TogglesFollowTable(t + [s])
    ensures ToggleCount(t + [s]) == ToggleCount(t) + 1
  {
    var u := t + [s];
    forall i | 0 < i < |u|
      ensures Phase(u[i - 1]) <= Phase(u[i])
    {
      if i < |t| {
        assert u[i - 1] == t[i - 1] && u[i] == t[i];
      }
    }
    forall i | 0 <= i < |u| && u[i].Toggle?
      ensures u[i].call == ToggleCall(u[i].observed)
    {
      if i < |t| {
        assert u[i] == t[i];
      }
    }
    ToggleCountSnoc(t, s);
  }

  /** Appending one step adds one to the count exactly when it is a toggle. */
  lemma {:induction false} ToggleCountSnoc(t: seq<Step>, s: Step)
    ensures ToggleCount(t + [s]) == ToggleCount(t) + (if s.Toggle? then 1 else 0)
    decreases |t|
  {
    if t == [] {
      assert [s][1..] == [];
    } else {
      assert (t + [s])[1..] == t[1..] + [s];
      ToggleCountSnoc(t[1..], s);
    }
  }

  /** A trace without toggles has a toggle count of zero. */
  lemma {:induction false} NoToggles(t: seq<Step>)
    requires forall i :: 0 <= i < |t| ==> !t[i].Toggle?
    ensures ToggleCount(t) == 0
    decreases |t|
  {
    if t != [] {
      assert forall i :: 0 <= i < |t[1..]| ==> t[1..][i] == t[i + 1];
      NoToggles(t[1..]);
    }
  }

  /** The rebuild part of `createAudioOutput`, in program order: every step
      of `RebuildSteps` once, in phase order. */
  function RebuildTrace(toneHz: int): (t: seq<Step>)
    ensures |t| == 6 && multiset(t) == RebuildSteps(toneHz)
    ensures InPhaseOrder(t) && forall i :: 0 <= i < |t| ==> !t[i].Toggle?
  {
    [DeleteGenerator, DeleteOutput, NewGenerator(PcmLayout.SessionDurationUs, toneHz),
     NewOutput, StartGenerator, StartOutput]
  }

  /** A rebuild followed by one toggle that follows the table keeps phase
      order and holds exactly that one toggle. */
  lemma RebuildThenToggle(toneHz: int, toggle: Step)
    requires toggle.Toggle? && toggle.call == ToggleCall(toggle.observed)
    ensures var t := RebuildTrace(toneHz) + [toggle];
      && |t| == 7 && t[..6] == RebuildTrace(toneHz) && t[6] == toggle
      && InPhaseOrder(t) && TogglesFollowTable(t) && ToggleCount(t) == 1
  {
    var rebuild := RebuildTrace(toneHz);
    assert (rebuild + [toggle])[..6] == rebuild;
    NoToggles(rebuild);
    AppendToggle(rebuild, toggle);
  }

  /** `createAudioOutput`: delete the old generator and sink, build new ones
      for `toneHz`, start the generator, start the sink on it, toggle once. */
  function CreateAudioOutput(sink: Sink, toneHz: int): (r: (SinkState, seq<Step>))
    ensures |r.1| == 7 && r.1[..6] == RebuildTrace(toneHz)
    ensures multiset(r.1[..6]) == RebuildSteps(toneHz)
    ensures InPhaseOrder(r.1) && TogglesFollowTable(r.1) && ToggleCount(r.1) == 1
    ensures r.1[6] == Toggle(sink.react(sink.initial, StartPull), ToggleCall(sink.react(sink.initial, StartPull)))
    ensures r.0 == AfterCall(sink, r.1[6].observed, r.1[6].call)
  {
    var started := sink.react(sink.initial, StartPull);
    var (after, toggle) := ToggleSuspendResume(sink, started);
    RebuildThenToggle(toneHz, toggle);
    (after, RebuildTrace(toneHz) + [toggle])
  }

  /** Number of toggles in a trace. */
  function ToggleCount(t: seq<Step>): nat
  {
    if t == [] then 0 else (if t[0].Toggle? then 1 else 0) + ToggleCount(t[1..])
  }

  /** A press handler (`on_XButton_pressed`): store the button's tone in the
      global, rebuild the session, and toggle a second time. */
  function Press(p: Player, sink: Sink, button: Button): (r: (Player, seq<Step>))
    ensures r.0.toneHz == ToneHz(button) && r.0.sink.Some?
    ensures |r.1| == 8 && multiset(r.1[..6]) == RebuildSteps(ToneHz(button))
    ensures r.1[0].IsTeardown() && r.1[1].IsTeardown()
    ensures InPhaseOrder(r.1) && TogglesFollowTable(r.1)
    ensures ToggleCount(r.1) == 2
    ensures r.1[6].Toggle? && r.1[6].observed == sink.react(sink.initial, StartPull)
    ensures r.1[7].Toggle? && r.1[7].observed == AfterCall(sink, r.1[6].observed, r.1[6].call)
    ensures r.0.sink == Some(AfterCall(sink, r.1[7].observed, r.1[7].call))
  {
    var hz := ToneHz(button);
    var (created, steps) := CreateAudioOutput(sink, hz);
    var (after, toggle) := ToggleSuspendResume(sink, created);
    var t := steps + [toggle];
    assert t[..6] == steps[..6] && t[6] == steps[6] && t[7] == toggle;
    assert t[0] == DeleteGenerator && t[1] == DeleteOutput by {
      assert t[0] == RebuildTrace(hz)[0] && t[1] == RebuildTrace(hz)[1];
    }
    AppendToggle(steps, toggle);
    (Player(hz, Some(after)), t)
  }

  /** A release handler (`on_XButton_released`): toggle once, nothing else. */
  function Release(p: Player, sink: Sink): (r: (Player, seq<Step>))
    requires p.sink.Some?
    ensures r.0.toneHz == p.toneHz && r.0.sink.Some?
    ensures |r.1| == 1 && r.1[0].Toggle? && r.1[0].observed == p.sink.value
    ensures r.0.sink == Some(AfterCall(sink, p.sink.value, r.1[0].call))
    ensures TogglesFollowTable(r.1) && ToggleCount(r.1) == 1
  {
    var (after, toggle) := ToggleSuspendResume(sink, p.sink.value);
    assert [toggle][1..] == [];
    (p.(sink := Some(after)), [toggle])
  }

  /** A button event as the UI delivers it. */
  datatype Event = Pressed(button: Button) | Released(button: Button)

  /** The 72 handlers as one: every press handler behaves alike up to its
      tone, and every release handler alike. A release before any press would
      dereference a null sink, so it needs a sink to exist. */
  function Handle(p: Player, sink: Sink, e: Event): (r: (Player, seq<Step>))
    requires e.Released? ==> p.sink.Some?
    ensures r.0.sink.Some?
    ensures e.Pressed? ==> r.0.toneHz == ToneHz(e.button) && ToggleCount(r.1) == 2
    ensures e.Released? ==> r.0.toneHz == p.toneHz && ToggleCount(r.1) == 1
  {
    match e
    case Pressed(b) => Press(p, sink, b)
    case Released(_) => Release(p, sink)
  }

  /** A sequence of events that never releases before some press has built a sink. */
  predicate Handleable(p: Player, events: seq<Event>)
  {
    |events| == 0 || events[0].Pressed? || p.sink.Some?
  }

  /** The player after handling `events` in order. */
  function Run(p: Player, sink: Sink, events: seq<Event>): (r: Player)
    requires Handleable(p, events)
    ensures |events| > 0 ==> r.sink.Some?
    decreases |events|
  {
    if |events| == 0 then p
    else Run(Handle(p, sink, events[0]).0, sink, events[1..])
  }

  /** The most recently pressed button among `events`, if any. */
  function LastPressed(events: seq<Event>): Option<Button>
  {
    if |events| == 0 then None
    else if events[|events| - 1].Pressed? then Some(events[|events| - 1].button)
    else LastPressed(events[..|events| - 1])
  }

  /** The tone that stays selected is the last one pressed. */
  lemma {:induction false} LastPressWins(p: Player, sink: Sink, events: seq<Event>)
    requires Handleable(p, events)
    ensures Run(p, sink, events).toneHz
            == match LastPressed(events) case None => p.toneHz case Some(b) => ToneHz(b)
    decreases |events|
  {
    if |events| > 0 {
      var p1 := Handle(p, sink, events[0]).0;
      var rest := events[1..];
      LastPressWins(p1, sink, rest);
      LastPressedSplit(events);
    }
  }

  /** The last press in `e :: rest` is the last in `rest`, or else `e` itself. */
  lemma {:induction false} LastPressedSplit(events: seq<Event>)
    requires |events| > 0
    ensures LastPressed(events)
            == match LastPressed(events[1..])
               case Some(b) => Some(b)
               case None => if events[0].Pressed? then Some(events[0].button) else None
    decreases |events|
  {
    var n := |events|;
    if n > 1 && !events[n - 1].Pressed? {
      LastPressedSplit(events[..n - 1]);
      assert events[..n - 1][1..] == events[1..][..n - 2];
    } else if n == 1 {
      assert events[1..] == [];
    }
  }

  /** A sink that carries out every command at once: starting or resuming
      makes it active, suspending suspends it. */
  function IdealReact(s: SinkState, c: SinkCommand): SinkState
  {
    match c
    case StartPull => ActiveState
    case Call(Resume) => ActiveState
    case Call(Suspend) => SuspendedState
  }

  const IdealSink := Sink(StoppedState, IdealReact)

  /** With a sink that obeys at once, a press leaves the tone playing: the
      toggle inside the rebuild suspends the freshly started sink and the
      handler's own toggle resumes it. A release then suspends it. */
  lemma PressPlaysReleaseSilences(p: Player, b: Button)
    ensures Press(p, IdealSink, b).0.sink == Some(ActiveState)
    ensures Press(p, IdealSink, b).1[6..] ==
            [Toggle(ActiveState, Some(Suspend)), Toggle(SuspendedState, Some(Resume))]
    ensures Release(Press(p, IdealSink, b).0, IdealSink).0.sink == Some(SuspendedState)
  {
  }

  /** With a sink that obeys at once, a release while the tone plays suspends it. */
  lemma ReleaseSilences(q: Player)
    requires q.sink == Some(ActiveState)
    ensures Release(q, IdealSink).0.sink == Some(SuspendedState)
  {
  }

  /** One event under an obeying sink: a press leaves the tone playing, a
      release of a playing tone silences it. */
  lemma HandleIdeal(q: Player, e: Event)
    requires e.Released? ==> q.sink == Some(ActiveState)
    ensures Handle(q, IdealSink, e).0.sink == Some(if e.Pressed? then ActiveState else SuspendedState)
  {
    if e.Pressed? {
      PressPlaysReleaseSilences(q, e.button);
    } else {
      ReleaseSilences(q);
    }
  }

  /** Press and release alternate as a held button produces them. */
  predicate Alternating(events: seq<Event>)
  {
    forall i :: 0 <= i < |events| ==> (events[i].Pressed? <==> i % 2 == 0)
  }

  /** Dropping the last event of an alternation leaves an alternation; the
      last event is a press exactly when the count is odd. */
  lemma AlternatingSnoc(events: seq<Event>)
    requires Alternating(events) && |events| > 0
    ensures events == events[..|events| - 1] + [events[|events| - 1]]
    ensures events[0].Pressed? && Alternating(events[..|events| - 1])
    ensures events[|events| - 1].Pressed? <==> |events| % 2 == 1
  {
    var init := events[..|events| - 1];
    assert forall i :: 0 <= i < |init| ==> init[i] == events[i];
  }

  /** Under an obeying sink, any alternation of presses and releases leaves
      the tone playing exactly while a button is held. */
  lemma {:induction false} HeldButtonPlays(p: Player, events: seq<Event>)
    requires Alternating(events) && |events| > 0
    ensures Handleable(p, events)
    ensures Run(p, IdealSink, events).sink
            == Some(if |events| % 2 == 1 then ActiveState else SuspendedState)
    decreases |events|
  {
    var n := |events|;
    var init, last := events[..n - 1], events[n - 1];
    AlternatingSnoc(events);
    RunSnoc(p, IdealSink, init, last);
    if n > 1 {
      HeldButtonPlays(p, init);
    }
    HandleIdeal(Run(p, IdealSink, init), last);
  }

  /** Handling one more event after a run. */
  lemma {:induction false} RunSnoc(p: Player, sink: Sink, events: seq<Event>, e: Event)
    requires Handleable(p, events + [e])
    ensures Handleable(p, events)
    ensures |events| > 0 ==> Run(p, sink, events).sink.Some?
    ensures Handleable(Run(p, sink, events), [e])
    ensures Run(p, sink, events + [e]) == Handle(Run(p, sink, events), sink, e).0
    decreases |events|
  {
    if |events| > 0 {
      assert (events + [e])[0] == events[0];
      var p1 := Handle(p, sink, events[0]).0;
      assert (events + [e])[1..] == events[1..] + [e];
      RunSnoc(p1, sink, events[1..], e);
    } else {
      assert events + [e] == [e];
      assert [e][1..] == [];
    }
  }
}
