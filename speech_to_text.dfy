/** The public SpeechToText class: its two enums, the answers it gives on a
    platform with no native recogniser, and the speech session it emulates
    inside the editor. */
module SpeechToText {
  import opened Events

  // ---------------------------------------------------------------------------
  // Enums and their integer encodings

  datatype Permission = Denied | Granted | ShouldAsk

  function PermissionCode(p: Permission): (n: int)
    ensures 0 <= n <= 2
  {
    match p
    case Denied => 0
    case Granted => 1
    case ShouldAsk => 2
  }

  /** The named member an integer stands for; C# lets any other integer be cast too. */
  function PermissionFromCode(n: int): (r: Option<Permission>)
    ensures r.Some? <==> 0 <= n <= 2
    ensures r.Some? ==> PermissionCode(r.value) == n
    ensures r.None? ==> forall p :: PermissionCode(p) != n
  {
    if n == 0 then Some(Denied)
    else if n == 1 then Some(Granted)
    else if n == 2 then Some(ShouldAsk)
    else None
  }

  datatype LanguageSupport = Unknown | NotSupported | Supported | LikelySupported

  function LanguageSupportCode(s: LanguageSupport): (n: int)
    ensures -1 <= n <= 2
  {
    match s
    case Unknown => -1
    case NotSupported => 0
    case Supported => 1
    case LikelySupported => 2
  }

  function LanguageSupportFromCode(n: int): (r: Option<LanguageSupport>)
    ensures r.Some? <==> -1 <= n <= 2
    ensures r.Some? ==> LanguageSupportCode(r.value) == n
    ensures r.None? ==> forall s :: LanguageSupportCode(s) != n
  {
    if n == -1 then Some(Unknown)
    else if n == 0 then Some(NotSupported)
    else if n == 1 then Some(Supported)
    else if n == 2 then Some(LikelySupported)
    else None
  }

  // ---------------------------------------------------------------------------
  // Answers without a native recogniser (the editor and unsupported platforms)

  function InitializeFallback(preferredLanguage: Option<string>): (initialized: bool)
    ensures initialized
  {
    true
  }

  function IsLanguageSupportedFallback(language: Option<string>): (support: LanguageSupport)
    ensures support == Supported && LanguageSupportCode(support) == 1
  {
    Supported
  }

  function IsServiceAvailableFallback(preferOfflineRecognition: bool): (available: bool)
    ensures available
  {
    true
  }

  function CheckPermissionFallback(): (granted: bool)
    ensures granted
  {
    true
  }

  /** The calls RequestPermissionAsync makes on its callback before it returns:
      exactly one, with Granted. */
  function RequestPermissionFallback(): (answers: seq<Permission>)
    ensures |answers| == 1 && answers[0] == Granted && PermissionCode(answers[0]) == 1
  {
    [Granted]
  }

  /** On a platform that is neither the editor, Android nor iOS, no session is ever in progress... */
  function IsBusyOther(): (busy: bool)
    ensures !busy
  {
    false
  }

  /** ...and Start claims success without doing anything. */
  function StartOther(listener: ListenerId, useFreeFormLanguageModel: bool, preferOfflineRecognition: bool): (started: bool)
    ensures started
  {
    true
  }

  // ---------------------------------------------------------------------------
  // The speech session emulated in the editor

  /** The callbacks EmulateSpeechOnEditor makes, one per resumption, before its finally block. */
  const EditorScript: seq<Event> := [Ready, Begin, Partial("Hello"), Partial("Hello world")]

  /** What ForceStop, and the script's own end, report. */
  const ForceStopResult: Event := Result(Some("Hello world"), None)

  /** What Cancel reports. */
  const CancelResult: Event := Result(None, Some(0))

  /** The events of `t` other than voice levels, in order. */
  function NonVoice(t: seq<Event>): (u: seq<Event>)
    ensures |u| <= |t|
    decreases |t|
  {
    if t == [] then []
    else if t[|t| - 1].Voice? then NonVoice(t[..|t| - 1])
    else NonVoice(t[..|t| - 1]) + [t[|t| - 1]]
  }

  /** The filter keeps exactly the events that are not voice levels. */
  lemma {:induction false} NonVoiceMembers(t: seq<Event>)
    ensures forall e :: e in NonVoice(t) <==> e in t && !e.Voice?
    decreases |t|
  {
    if t != [] {
      NonVoiceMembers(t[..|t| - 1]);
      assert t == t[..|t| - 1] + [t[|t| - 1]];
    }
  }

  lemma NonVoiceSnoc(t: seq<Event>, e: Event)
    ensures NonVoice(t + [e]) == if e.Voice? then NonVoice(t) else NonVoice(t) + [e]
  {
    assert (t + [e])[..|t|] == t;
  }

  /** A script of callbacks that reports neither a result nor a voice level. */
  predicate Scripted(script: seq<Event>) {
    forall k | 0 <= k < |script| :: !script[k].Result? && !script[k].Voice?
  }

  /** A running session: apart from voice levels, a prefix of `script`. */
  predicate RunningIn(script: seq<Event>, t: seq<Event>) {
    var u := NonVoice(t);
    |u| <= |script| && u == script[..|u|]
  }

  /** A finished session: running, then one of `finals`, last. */
  predicate EndedIn(script: seq<Event>, finals: seq<Event>, t: seq<Event>) {
    |t| > 0 && t[|t| - 1] in finals && RunningIn(script, t[..|t| - 1])
  }

  predicate AllEndedIn(script: seq<Event>, finals: seq<Event>, ss: seq<Session>) {
    forall i | 0 <= i < |ss| :: EndedIn(script, finals, ss[i].events)
  }

  /** A finished session holds exactly one result, its last event. */
  lemma {:induction false} EndedOneResult(script: seq<Event>, finals: seq<Event>, t: seq<Event>)
    requires Scripted(script) && (forall k | 0 <= k < |finals| :: finals[k].Result?)
    requires EndedIn(script, finals, t)
    ensures t[|t| - 1].Result?
    ensures forall j | 0 <= j < |t| - 1 :: !t[j].Result?
  {
    var before := t[..|t| - 1];
    var u := NonVoice(before);
    NonVoiceMembers(before);
    assert forall e | e in u :: e in script;
    forall j | 0 <= j < |t| - 1 ensures !t[j].Result? {
      assert t[j] == before[j];
      assert t[j] in before;
    }
  }

  /** A running session has not ended, when the script reports no result and a final does. */
  lemma RunningNotEnded(script: seq<Event>, finals: seq<Event>, t: seq<Event>)
    requires Scripted(script) && (forall k | 0 <= k < |finals| :: finals[k].Result?)
    requires RunningIn(script, t)
    ensures !EndedIn(script, finals, t)
  {
    if |t| > 0 && t[|t| - 1] in finals {
      assert t[|t| - 1] in t;
      NonVoiceMembers(t);
    }
  }

  /** The session log while `l`'s session has received `pc` script callbacks. */
  ghost predicate LiveIn(script: seq<Event>, finals: seq<Event>, ss: seq<Session>, l: ListenerId, pc: nat) {
    && |ss| > 0
    && AllEndedIn(script, finals, ss[..|ss| - 1])
    && ss[|ss| - 1].listener == l
    && RunningIn(script, ss[|ss| - 1].events)
    && pc == |NonVoice(ss[|ss| - 1].events)|
  }

  lemma LiveStart(script: seq<Event>, finals: seq<Event>, ss: seq<Session>, l: ListenerId)
    requires AllEndedIn(script, finals, ss)
    ensures LiveIn(script, finals, ss + [Session(l, [])], l, 0)
  {
    assert (ss + [Session(l, [])])[..|ss|] == ss;
  }

  lemma LiveStep(script: seq<Event>, finals: seq<Event>, ss: seq<Session>, l: ListenerId, pc: nat)
    requires Scripted(script) && LiveIn(script, finals, ss, l, pc) && pc < |script|
    ensures LiveIn(script, finals, Deliver(ss, script[pc]), l, pc + 1)
  {
    var r := Deliver(ss, script[pc]);
    var t := ss[|ss| - 1].events;
    assert r[|r| - 1].events == t + [script[pc]];
    NonVoiceSnoc(t, script[pc]);
    assert NonVoice(t + [script[pc]]) == script[..pc] + [script[pc]];
    assert script[..pc] + [script[pc]] == script[..pc + 1];
    assert r[..|r| - 1] == ss[..|ss| - 1];
  }

  lemma LiveVoice(script: seq<Event>, finals: seq<Event>, ss: seq<Session>, l: ListenerId, pc: nat)
    requires LiveIn(script, finals, ss, l, pc)
    ensures LiveIn(script, finals, Deliver(ss, Voice), l, pc)
  {
    var r := Deliver(ss, Voice);
    NonVoiceSnoc(ss[|ss| - 1].events, Voice);
    assert r[..|r| - 1] == ss[..|ss| - 1];
  }

  lemma LiveEnd(script: seq<Event>, finals: seq<Event>, ss: seq<Session>, l: ListenerId, pc: nat, e: Event)
    requires LiveIn(script, finals, ss, l, pc) && e in finals
    ensures AllEndedIn(script, finals, Deliver(ss, e))
  {
    var r := Deliver(ss, e);
    var last := ss[|ss| - 1].events;
    assert (last + [e])[..|last|] == last;
    forall i | 0 <= i < |r| ensures EndedIn(script, finals, r[i].events) {
      if i < |r| - 1 {
        assert r[i] == ss[..|ss| - 1][i];
      }
    }
  }

  /** The results an emulated session can end with. */
  const EditorFinals: seq<Event> := [ForceStopResult, CancelResult]

  /** A finished emulated session: a prefix of the script, then ForceStop's or Cancel's result. */
  predicate EditorEnded(t: seq<Event>) {
    EndedIn(EditorScript, EditorFinals, t)
  }

  /** A finished emulated session holds exactly one result, its last event. */
  lemma EditorEndedOneResult(t: seq<Event>)
    requires EditorEnded(t)
    ensures t[|t| - 1] == ForceStopResult || t[|t| - 1] == CancelResult
    ensures forall j | 0 <= j < |t| - 1 :: !t[j].Result?
  {
    EndedOneResult(EditorScript, EditorFinals, t);
  }

  /** The static speechSessionEmulator / speechSessionEmulatorListener fields of
      the editor build, the emulator script's position, and what each listener
      received, per Start. */
  class EditorEmulator {
    var emulator: bool                  // speechSessionEmulator != null (a destroyed object compares equal to null)
    var emulatorListener: Option<ListenerId>
    var pc: nat                         // script callbacks EmulateSpeechOnEditor has made
    var sessions: seq<Session>

    ghost predicate Valid()
      reads this
    {
      && (!emulator ==> emulatorListener.None? && AllEndedIn(EditorScript, EditorFinals, sessions))
      && (emulator ==> emulatorListener.Some? && LiveIn(EditorScript, EditorFinals, sessions, emulatorListener.value, pc))
    }

    constructor ()
      ensures Valid()
      ensures !emulator && emulatorListener.None? && sessions == []
    {
      emulator, emulatorListener, pc, sessions := false, None, 0, [];
    }

    /** A session is in progress exactly when the latest one has not ended. */
    function IsBusy(): (busy: bool)
      reads this
      requires Valid()
      ensures busy <==> |sessions| > 0 && !EditorEnded(sessions[|sessions| - 1].events)
      ensures busy == emulator
    {
      if emulator then
        RunningNotEnded(EditorScript, EditorFinals, sessions[|sessions| - 1].events);
        true
      else
        false
    }

    /** Starts an emulated session for `l`; the script has not made a callback yet. */
    method Start(l: ListenerId) returns (started: bool)
      requires Valid() && !IsBusy()
      modifies this
      ensures Valid() && IsBusy()
      ensures started
      ensures emulator && emulatorListener == Some(l) && pc == 0
      ensures sessions == old(sessions) + [Session(l, [])]
    {
      LiveStart(EditorScript, EditorFinals, sessions, l);
      emulatorListener := Some(l);
      emulator := true;
      pc := 0;
      sessions := sessions + [Session(l, [])];
      started := true;
    }

    /** Ends the session, if any, with Result(text, code). The emulator is
        destroyed before the listener is called, and the fields are cleared. */
    method StopEmulateSpeechOnEditor(spokenText: Option<string>, errorCode: Option<int>)
      requires Valid()
      requires Result(spokenText, errorCode) == ForceStopResult || Result(spokenText, errorCode) == CancelResult
      modifies this
      ensures Valid() && !emulator && emulatorListener.None?
      ensures pc == old(pc)
      ensures sessions ==
        if old(emulator) then Deliver(old(sessions), Result(spokenText, errorCode)) else old(sessions)
    {
      if !emulator {
        return;
      }
      LiveEnd(EditorScript, EditorFinals, sessions, emulatorListener.value, pc, Result(spokenText, errorCode));
      emulator := false;
      sessions := Deliver(sessions, Result(spokenText, errorCode));
      emulatorListener := None;
    }

    method ForceStop()
      requires Valid()
      modifies this
      ensures Valid() && !IsBusy()
      ensures sessions == if old(emulator) then Deliver(old(sessions), ForceStopResult) else old(sessions)
    {
      StopEmulateSpeechOnEditor(Some("Hello world"), None);
    }

    method Cancel()
      requires Valid()
      modifies this
      ensures Valid() && !IsBusy()
      ensures sessions == if old(emulator) then Deliver(old(sessions), CancelResult) else old(sessions)
    {
      StopEmulateSpeechOnEditor(None, Some(0));
    }

    /** One resumption of EmulateSpeechOnEditor: the next scripted callback, or,
        once the script is through, its finally block ending the session. */
    method ScriptStep()
      requires Valid() && emulator
      modifies this
      ensures Valid()
      ensures old(pc) < |EditorScript| ==>
        emulator && emulatorListener == old(emulatorListener) && pc == old(pc) + 1 &&
        sessions == Deliver(old(sessions), EditorScript[old(pc)])
      ensures old(pc) >= |EditorScript| ==>
        !emulator && emulatorListener.None? && sessions == Deliver(old(sessions), ForceStopResult)
    {
      if pc < |EditorScript| {
        LiveStep(EditorScript, EditorFinals, sessions, emulatorListener.value, pc);
        sessions := Deliver(sessions, EditorScript[pc]);
        pc := pc + 1;
      } else {
        StopEmulateSpeechOnEditor(Some("Hello world"), None);
      }
    }

    /** EmulateVoiceLevelChangeOnEditor reporting a voice level. */
    method VoiceTick()
      requires Valid() && emulator
      modifies this`sessions
      ensures Valid()
      ensures sessions == Deliver(old(sessions), Voice)
    {
      LiveVoice(EditorScript, EditorFinals, sessions, emulatorListener.value, pc);
      sessions := Deliver(sessions, Voice);
    }
  }

  /** A script without voice levels is left alone by the filter, prefix by prefix. */
  lemma {:induction false} ScriptPrefixNonVoice(script: seq<Event>, k: nat)
    requires Scripted(script) && k <= |script|
    ensures NonVoice(script[..k]) == script[..k]
  {
    if k > 0 {
      ScriptPrefixNonVoice(script, k - 1);
      assert script[..k] == script[..k - 1] + [script[k - 1]];
      NonVoiceSnoc(script[..k - 1], script[k - 1]);
    }
  }

  /** The state of a session for `l` that has received the first `k` script
      callbacks and nothing else. */
  predicate FreshAt(e: EditorEmulator, l: ListenerId, k: nat)
    reads e
  {
    && k <= |EditorScript|
    && e.emulator && e.emulatorListener == Some(l) && e.pc == k
    && e.sessions == [Session(l, EditorScript[..k])]
  }

  lemma FreshValid(e: EditorEmulator, l: ListenerId, k: nat)
    requires FreshAt(e, l, k)
    ensures e.Valid()
  {
    ScriptPrefixNonVoice(EditorScript, k);
    assert e.sessions[..0] == [];
  }

  /** A new emulator with a session just started for `l`. */
  method StartFresh(l: ListenerId) returns (e: EditorEmulator)
    ensures fresh(e) && FreshAt(e, l, 0)
  {
    e := new EditorEmulator();
    var started := e.Start(l);
    assert EditorScript[..0] == [];
  }

  /** The next script callback extends a session that has heard only the script so far. */
  lemma DeliverNext(script: seq<Event>, l: ListenerId, k: nat)
    requires k < |script|
    ensures Deliver([Session(l, script[..k])], script[k]) == [Session(l, script[..k + 1])]
  {
    var r := Deliver([Session(l, script[..k])], script[k]);
    assert script[..k] + [script[k]] == script[..k + 1];
    assert r[0] == Session(l, script[..k + 1]);
  }

  /** One scripted callback of a session that nothing else has touched. */
  method ScriptStepFresh(e: EditorEmulator, l: ListenerId, k: nat)
    requires FreshAt(e, l, k) && k < |EditorScript|
    modifies e
    ensures FreshAt(e, l, k + 1)
  {
    FreshValid(e, l, k);
    e.ScriptStep();
    DeliverNext(EditorScript, l, k);
  }

  /** The end of the script in a session that nothing else has touched. */
  method ScriptEndFresh(e: EditorEmulator, l: ListenerId) returns (transcript: seq<Event>)
    requires FreshAt(e, l, |EditorScript|)
    modifies e
    ensures transcript == EditorScript + [ForceStopResult]
  {
    FreshValid(e, l, |EditorScript|);
    assert EditorScript[..|EditorScript|] == EditorScript;
    e.ScriptStep();
    transcript := e.sessions[0].events;
  }

  /** Cancel on a session that nothing else has touched. */
  method CancelFresh(e: EditorEmulator, l: ListenerId, k: nat)
    requires FreshAt(e, l, k)
    modifies e
    ensures e.Valid() && !e.emulator
    ensures e.sessions == [Session(l, EditorScript[..k] + [CancelResult])]
  {
    FreshValid(e, l, k);
    e.Cancel();
  }

  /** A session left to run its course delivers the whole script and then the
      ForceStop result. */
  method UninterruptedEditorSession(l: ListenerId) returns (transcript: seq<Event>)
    ensures transcript == EditorScript + [ForceStopResult]
  {
    var e := StartFresh(l);
    ScriptStepFresh(e, l, 0);
    ScriptStepFresh(e, l, 1);
    ScriptStepFresh(e, l, 2);
    ScriptStepFresh(e, l, 3);
    transcript := ScriptEndFresh(e, l);
  }

  /** Cancel followed by ForceStop: the listener hears exactly one result, Cancel's. */
  method CancelThenForceStop(l: ListenerId) returns (transcript: seq<Event>, busy: bool)
    ensures transcript == [Ready, CancelResult] && !busy
  {
    var e := StartFresh(l);
    ScriptStepFresh(e, l, 0);
    CancelFresh(e, l, 1);
    assert EditorScript[..1] + [CancelResult] == [Ready, CancelResult];
    ghost var before := e.sessions;
    e.ForceStop();
    assert e.sessions == before;
    transcript := e.sessions[0].events;
    busy := e.IsBusy();
  }
}
