/** What an engine-side listener (ISpeechToTextListener) can be told, and the
    per-session logs in which the model records what each listener received. */
module Events {

  /** A C# reference or nullable value: None stands for null. */
  datatype Option<+T> = None | Some(value: T) {
    /** The value, or the default when null. */
    function GetOr(default: T): T {
      match this
      case Some(v) => v
      case None => default
    }
  }

  /** Identity of a listener object handed in by the game code. */
  type ListenerId = nat

  /** One call on ISpeechToTextListener. The voice level is a float and is kept opaque. */
  datatype Event =
    | Ready                                             // OnReadyForSpeech
    | Begin                                             // OnBeginningOfSpeech
    | Partial(partial: string)                          // OnPartialResultReceived
    | Voice                                             // OnVoiceLevelChanged
    | Result(spoken: Option<string>, code: Option<int>) // OnResultReceived

  /** Everything one listener received during one speech session, in order. */
  datatype Session = Session(listener: ListenerId, events: seq<Event>)

  /** One listener call made on the main thread. */
  datatype Delivery = Delivery(to: ListenerId, ev: Event)

  /** `string.IsNullOrEmpty(s) ? null : s`. */
  function NullIfEmpty(s: Option<string>): (r: Option<string>)
    ensures r.None? <==> (s.None? || s.value == [])
    ensures r.Some? ==> r == s
  {
    if s.Some? && s.value != [] then s else None
  }

  /** The session log after the listener of the latest session received `e`. */
  function Deliver(ss: seq<Session>, e: Event): (r: seq<Session>)
    requires |ss| > 0
    ensures |r| == |ss|
    ensures forall i | 0 <= i < |ss| - 1 :: r[i] == ss[i]
    ensures r[|ss| - 1].listener == ss[|ss| - 1].listener
    ensures r[|ss| - 1].events == ss[|ss| - 1].events + [e]
  {
    var last := ss[|ss| - 1];
    ss[|ss| - 1 := Session(last.listener, last.events + [e])]
  }
}
