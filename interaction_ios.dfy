/** STTInteractionCallbackiOS: the single object that receives the native
    recogniser's messages on iOS and forwards them to the one live listener.
    Its guarantees are stated per session, the events one listener received
    between one `Initialize` and the session's result. */
module InteractionIos {
  import opened Events
  import Int32Text

  /** Error code given to a listener whose session is superseded by a new `Initialize`. */
  const SupersededCode: int := 8

  /** Error code reported when the native error message is not a number. */
  const UnparsableErrorCode: int := -1

  // ---------------------------------------------------------------------------
  // The per-session protocol, as an automaton

  /** Where a session stands: still open (and whether Ready and Begin have been
      delivered), or finished by its result. */
  datatype Phase = Open(ready: bool, begun: bool) | Closed

  /** One event of a session, from phase `p`; None is a protocol violation. */
  function Step(p: Phase, e: Event): Option<Phase> {
    match p
    case Closed => None
    case Open(ready, begun) =>
      match e
      case Ready => if ready then None else Some(Open(true, begun))
      case Begin => if !ready || begun then None else Some(Open(true, true))
      case Partial(s) => if !ready || !begun || s == [] then None else Some(p)
      case Voice => Some(p)
      case Result(_, _) => if !ready then None else Some(Closed)
  }

  /** The phase a session is in after the events `t`, or None if `t` breaks the protocol. */
  function Run(t: seq<Event>): Option<Phase>
    decreases |t|
  {
    if t == [] then Some(Open(false, false))
    else
      match Run(t[..|t| - 1])
      case None => None
      case Some(p) => Step(p, t[|t| - 1])
  }

  lemma RunSnoc(t: seq<Event>, e: Event)
    ensures Run(t + [e]) == (if Run(t).None? then None else Step(Run(t).value, e))
  {
    assert (t + [e])[..|t|] == t;
  }

  // ---------------------------------------------------------------------------
  // The same protocol, stated event by event

  predicate ReadyAtMostOnce(t: seq<Event>) {
    forall i, j | 0 <= i < j < |t| :: !(t[i].Ready? && t[j].Ready?)
  }

  predicate BeginAtMostOnce(t: seq<Event>) {
    forall i, j | 0 <= i < j < |t| :: !(t[i].Begin? && t[j].Begin?)
  }

  /** Begin, partial results and the result all come after Ready (only voice levels may come earlier). */
  predicate ReadyFirst(t: seq<Event>) {
    forall j | 0 <= j < |t| && (t[j].Begin? || t[j].Partial? || t[j].Result?) :: Ready in t[..j]
  }

  /** Every partial result is non-empty and comes after Begin. */
  predicate BeginBeforePartials(t: seq<Event>) {
    forall j | 0 <= j < |t| && t[j].Partial? :: t[j].partial != [] && Begin in t[..j]
  }

  /** A result can only be the last event: at most one result, and nothing after it. */
  predicate ResultIsLast(t: seq<Event>) {
    forall j | 0 <= j < |t| && t[j].Result? :: j == |t| - 1
  }

  predicate IosSessionConforms(t: seq<Event>) {
    ReadyAtMostOnce(t) && BeginAtMostOnce(t) && ReadyFirst(t) && BeginBeforePartials(t) && ResultIsLast(t)
  }

  /** The phase a conforming session is in, read off its events. */
  function PhaseOf(t: seq<Event>): Phase {
    if |t| > 0 && t[|t| - 1].Result? then Closed else Open(Ready in t, Begin in t)
  }

  /** The automaton accepts exactly the sessions that satisfy the event-by-event
      rules, and its phase is the one read off the events. */
  lemma {:induction false} RunConforms(t: seq<Event>)
    ensures Run(t).Some? <==> IosSessionConforms(t)
    ensures Run(t).Some? ==> Run(t).value == PhaseOf(t)
    decreases |t|
  {
    if t != [] {
      var u, e := t[..|t| - 1], t[|t| - 1];
      assert t == u + [e];
      RunConforms(u);
      RunSnoc(u, e);
      SnocConforms(u, e);
    }
  }

  // How each rule extends by one event.

  lemma SnocReadyAtMostOnce(u: seq<Event>, e: Event)
    ensures ReadyAtMostOnce(u + [e]) <==> ReadyAtMostOnce(u) && !(e.Ready? && Ready in u)
  {
    var t := u + [e];
    assert forall j | 0 <= j < |u| :: t[j] == u[j];
    if e.Ready? && Ready in u {
      var i :| 0 <= i < |u| && u[i] == Ready;
      assert t[i].Ready? && t[|u|].Ready?;
    }
  }

  lemma SnocBeginAtMostOnce(u: seq<Event>, e: Event)
    ensures BeginAtMostOnce(u + [e]) <==> BeginAtMostOnce(u) && !(e.Begin? && Begin in u)
  {
    var t := u + [e];
    assert forall j | 0 <= j < |u| :: t[j] == u[j];
    if e.Begin? && Begin in u {
      var i :| 0 <= i < |u| && u[i] == Begin;
      assert t[i].Begin? && t[|u|].Begin?;
    }
  }

  lemma SnocReadyFirst(u: seq<Event>, e: Event)
    ensures ReadyFirst(u + [e]) <==> ReadyFirst(u) && ((e.Begin? || e.Partial? || e.Result?) ==> Ready in u)
  {
    var t := u + [e];
    assert forall j | 0 <= j < |u| :: t[j] == u[j] && t[..j] == u[..j];
    assert t[..|u|] == u;
  }

  lemma SnocBeginBeforePartials(u: seq<Event>, e: Event)
    ensures BeginBeforePartials(u + [e]) <==>
      BeginBeforePartials(u) && (e.Partial? ==> e.partial != [] && Begin in u)
  {
    var t := u + [e];
    assert forall j | 0 <= j < |u| :: t[j] == u[j] && t[..j] == u[..j];
    assert t[..|u|] == u;
  }

  lemma SnocResultIsLast(u: seq<Event>, e: Event)
    ensures ResultIsLast(u + [e]) <==> ResultIsLast(u) && (|u| > 0 ==> !u[|u| - 1].Result?)
  {
    var t := u + [e];
    assert forall j | 0 <= j < |u| :: t[j] == u[j];
  }

  lemma SnocConforms(u: seq<Event>, e: Event)
    ensures IosSessionConforms(u + [e]) <==>
      IosSessionConforms(u) && PhaseOf(u).Open? &&
      match e
      case Ready => Ready !in u
      case Begin => Ready in u && Begin !in u
      case Partial(s) => s != [] && Ready in u && Begin in u
      case Voice => true
      case Result(_, _) => Ready in u
    ensures PhaseOf(u + [e]) ==
      if e.Result? then Closed else Open(Ready in u || e.Ready?, Begin in u || e.Begin?)
  {
    SnocReadyAtMostOnce(u, e);
    SnocBeginAtMostOnce(u, e);
    SnocReadyFirst(u, e);
    SnocBeginBeforePartials(u, e);
    SnocResultIsLast(u, e);
    assert Ready in u + [e] <==> Ready in u || e.Ready?;
    assert Begin in u + [e] <==> Begin in u || e.Begin?;
  }

  // ---------------------------------------------------------------------------
  // Session logs

  /** Every session in `ss` has ended with its result. */
  ghost predicate AllClosed(ss: seq<Session>) {
    forall i | 0 <= i < |ss| :: Run(ss[i].events) == Some(Closed)
  }

  /** All sessions but the latest have ended; the latest belongs to `l`, has
      had Ready, and has had Begin exactly when `begun`. */
  ghost predicate LiveAt(ss: seq<Session>, l: ListenerId, begun: bool) {
    && |ss| > 0
    && AllClosed(ss[..|ss| - 1])
    && ss[|ss| - 1].listener == l
    && Run(ss[|ss| - 1].events) == Some(Open(true, begun))
  }

  /** Delivering an event to the latest session leaves the earlier ones alone. */
  lemma KeepLatest(ss: seq<Session>, e: Event)
    requires |ss| > 0
    ensures Deliver(ss, e)[..|ss| - 1] == ss[..|ss| - 1]
    ensures Run(Deliver(ss, e)[|ss| - 1].events) ==
      (if Run(ss[|ss| - 1].events).None? then None else Step(Run(ss[|ss| - 1].events).value, e))
  {
    RunSnoc(ss[|ss| - 1].events, e);
  }

  /** A voice level, the first Begin, or a non-empty partial result after Begin keeps the session live. */
  lemma LiveDeliver(ss: seq<Session>, l: ListenerId, begun: bool, e: Event)
    requires LiveAt(ss, l, begun)
    requires e.Voice? || (e.Begin? && !begun) || (e.Partial? && begun && e.partial != [])
    ensures LiveAt(Deliver(ss, e), l, begun || e.Begin?)
  {
    KeepLatest(ss, e);
  }

  /** A result delivered to the live session ends it, and so every session has ended. */
  lemma LiveClose(ss: seq<Session>, l: ListenerId, begun: bool, e: Event)
    requires LiveAt(ss, l, begun) && e.Result?
    ensures AllClosed(Deliver(ss, e))
  {
    KeepLatest(ss, e);
    var r := Deliver(ss, e);
    forall i | 0 <= i < |r| ensures Run(r[i].events) == Some(Closed) {
      if i < |ss| - 1 {
        assert r[i] == ss[..|ss| - 1][i];
      }
    }
  }

  /** What a freshly installed listener has received by the end of `Initialize`
      makes it the live session. */
  lemma LiveOpen(ss: seq<Session>, l: ListenerId, voiced: bool)
    requires AllClosed(ss)
    ensures LiveAt(ss + [Session(l, (if voiced then [Voice] else []) + [Ready])], l, false)
  {
    var r := ss + [Session(l, (if voiced then [Voice] else []) + [Ready])];
    assert r[..|ss|] == ss;
    RunSnoc([], Voice);
    assert [] + [Voice] == [Voice];
    RunSnoc([Voice], Ready);
    RunSnoc([], Ready);
    assert [] + [Ready] == [Ready];
  }

  // ---------------------------------------------------------------------------
  // The object

  /** The static `instance` of STTInteractionCallbackiOS together with its fields.
      `sessions` records, per `Initialize`, what the installed listener received. */
  class SessionGuard {
    var created: bool                    // instance != null
    var listener: Option<ListenerId>
    var beginningOfSpeechInvoked: bool
    var polling: bool                    // voiceLevelChangeDetectionCoroutine != null
    var lastRmsDb: real                  // the polling loop's lastRmsDB
    var sessions: seq<Session>

    /** Every session obeys the protocol; all are finished except the live
        listener's, which has had Ready and has had Begin exactly when the flag says so. */
    ghost predicate Valid()
      reads this
    {
      && (!created ==> listener.None? && !polling && sessions == [])
      && (listener.None? ==> AllClosed(sessions))
      && (listener.Some? ==> LiveAt(sessions, listener.value, beginningOfSpeechInvoked))
    }

    /** The state before any speech session: no instance yet. */
    constructor ()
      ensures Valid()
      ensures !created && listener.None? && !beginningOfSpeechInvoked && !polling && sessions == []
    {
      created, listener, beginningOfSpeechInvoked, polling := false, None, false, false;
      lastRmsDb, sessions := -1.0, [];
    }

    /** Installs `l` as the live listener. A listener still pending is first told
        `Result(null, 8)`. If no polling loop is running one is started, and
        since a coroutine runs at once up to its first yield, its first sample
        `firstSample` reaches the new listener as a voice level before Ready
        unless it equals the loop's initial -1. */
    method Initialize(l: ListenerId, firstSample: real)
      requires Valid()
      modifies this
      ensures Valid()
      ensures created && listener == Some(l) && !beginningOfSpeechInvoked && polling
      ensures lastRmsDb == if old(polling) then old(lastRmsDb) else firstSample
      ensures sessions ==
        (if old(listener).Some? then Deliver(old(sessions), Result(None, Some(SupersededCode))) else old(sessions))
        + [Session(l, (if !old(polling) && firstSample != -1.0 then [Voice] else []) + [Ready])]
    {
      if !created {
        created := true;
      } else if listener.Some? {
        LiveClose(sessions, listener.value, beginningOfSpeechInvoked, Result(None, Some(SupersededCode)));
        sessions := Deliver(sessions, Result(None, Some(SupersededCode)));
      }
      listener := Some(l);
      beginningOfSpeechInvoked := false;
      // what the new listener receives before Initialize returns
      var opening: seq<Event> := [];
      if !polling {
        polling := true;
        lastRmsDb := -1.0;
        if firstSample != lastRmsDb {
          lastRmsDb := firstSample;
          opening := opening + [Voice];
        }
      }
      ghost var voiced := opening != [];
      opening := opening + [Ready];
      assert opening == (if voiced then [Voice] else []) + [Ready];
      LiveOpen(sessions, l, voiced);
      sessions := sessions + [Session(l, opening)];
    }

    /** One resumption of the polling loop after a frame: while a listener is
        installed it forwards a changed sample as a voice level, otherwise the
        loop ends and clears its handle. */
    method PollStep(sample: real)
      requires Valid() && polling
      modifies this
      ensures Valid()
      ensures created == old(created) && listener == old(listener)
      ensures beginningOfSpeechInvoked == old(beginningOfSpeechInvoked)
      ensures polling == old(listener).Some?
      ensures lastRmsDb == if old(listener).Some? then sample else old(lastRmsDb)
      ensures sessions ==
        if old(listener).Some? && sample != old(lastRmsDb) then Deliver(old(sessions), Voice) else old(sessions)
    {
      if listener.Some? {
        if sample != lastRmsDb {
          lastRmsDb := sample;
          OnVoiceLevelChanged(sample);
        }
      } else {
        polling := false;
      }
    }

    /** A voice level reaches the live listener; with none installed nothing happens. */
    method OnVoiceLevelChanged(rmsDb: real)
      requires Valid()
      modifies this`sessions
      ensures Valid()
      ensures sessions == if listener.Some? then Deliver(old(sessions), Voice) else old(sessions)
    {
      if listener.Some? {
        LiveDeliver(sessions, listener.value, beginningOfSpeechInvoked, Voice);
        sessions := Deliver(sessions, Voice);
      }
    }

    /** The first partial result of a session is preceded by Begin; an empty
        partial result still fires that Begin but is not forwarded itself. */
    method OnPartialResultReceived(spoken: Option<string>)
      requires Valid()
      modifies this`sessions, this`beginningOfSpeechInvoked
      ensures Valid()
      ensures beginningOfSpeechInvoked == (old(beginningOfSpeechInvoked) || listener.Some?)
      ensures listener.None? ==> sessions == old(sessions)
      ensures listener.Some? ==>
        var begun := if old(beginningOfSpeechInvoked) then old(sessions) else Deliver(old(sessions), Begin);
        sessions == if NullIfEmpty(spoken).Some? then Deliver(begun, Partial(spoken.value)) else begun
    {
      if listener.Some? {
        if !beginningOfSpeechInvoked {
          beginningOfSpeechInvoked := true;
          LiveDeliver(sessions, listener.value, false, Begin);
          sessions := Deliver(sessions, Begin);
        }
        if NullIfEmpty(spoken).Some? {
          LiveDeliver(sessions, listener.value, true, Partial(spoken.value));
          sessions := Deliver(sessions, Partial(spoken.value));
        }
      }
    }

    /** Ends the session with the recognised text (null when empty). The slot is
        cleared before the call, so a later message finds no listener. */
    method OnResultReceived(spoken: Option<string>)
      requires Valid()
      modifies this`sessions, this`listener
      ensures Valid()
      ensures listener.None?
      ensures sessions ==
        if old(listener).Some? then Deliver(old(sessions), Result(NullIfEmpty(spoken), None)) else old(sessions)
    {
      var current := listener;
      listener := None;
      if current.Some? {
        LiveClose(sessions, current.value, beginningOfSpeechInvoked, Result(NullIfEmpty(spoken), None));
        sessions := Deliver(sessions, Result(NullIfEmpty(spoken), None));
      }
    }

    /** Ends the session with the error code the message spells, or -1 when it
        is not a number. The slot is cleared first, as in OnResultReceived. */
    method OnError(error: Option<string>)
      requires Valid()
      modifies this`sessions, this`listener
      ensures Valid()
      ensures listener.None?
      ensures sessions ==
        if old(listener).Some? then Deliver(old(sessions), Result(None, Some(ErrorCode(error)))) else old(sessions)
    {
      var current := listener;
      listener := None;
      if current.Some? {
        var errorCode := ErrorCode(error);
        LiveClose(sessions, current.value, beginningOfSpeechInvoked, Result(None, Some(errorCode)));
        sessions := Deliver(sessions, Result(None, Some(errorCode)));
      }
    }

    /** What every listener received so far obeys the session protocol. */
    lemma EverySessionConforms()
      requires Valid()
      ensures forall i | 0 <= i < |sessions| :: IosSessionConforms(sessions[i].events)
    {
      forall i | 0 <= i < |sessions| ensures IosSessionConforms(sessions[i].events) {
        if i < |sessions| - 1 {
          assert sessions[i] == sessions[..|sessions| - 1][i];
        }
        RunConforms(sessions[i].events);
      }
    }
  }

  /** The code OnError reports for a native error message. */
  function ErrorCode(error: Option<string>): (code: int)
    ensures Int32Text.ParseInt32(error).Some? ==> code == Int32Text.ParseInt32(error).value
    ensures Int32Text.ParseInt32(error).None? ==> code == UnparsableErrorCode
    ensures Int32Text.MinInt32 <= code <= Int32Text.MaxInt32
  {
    Int32Text.ParseInt32(error).GetOr(UnparsableErrorCode)
  }
}
