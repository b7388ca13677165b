/** STTInteractionCallbackAndroid: the proxy the Java recogniser calls on its
    own threads. Every callback becomes one action queued on a main-thread
    helper created with the proxy; the result action also destroys the helper. */
module InteractionAndroid {
  import opened Events
  import opened CallbackHelperAndroid

  /** Android's SpeechRecognizer.ERROR_SPEECH_TIMEOUT and ERROR_NO_MATCH. */
  const SpeechTimeout: int := 6
  const NoMatch: int := 7

  /** The error code the listener sees: no-match is reported as a speech
      timeout, and a negative code means no error. */
  function NormalizeCode(errorCode: int): (r: Option<int>)
    ensures r.None? <==> errorCode < 0
    ensures r != Some(NoMatch)
    ensures errorCode == NoMatch ==> r == Some(SpeechTimeout)
    ensures errorCode >= 0 && errorCode != NoMatch ==> r == Some(errorCode)
  {
    var code := if errorCode == NoMatch then SpeechTimeout else errorCode;
    if code >= 0 then Some(code) else None
  }

  /** The result event for what the recogniser reported. */
  function ResultEvent(spokenText: Option<string>, errorCode: int): (e: Event)
    ensures e.Result?
    ensures e.spoken.None? <==> spokenText.None? || spokenText.value == []
    ensures e.spoken.Some? ==> e.spoken == spokenText
    ensures e.code.None? <==> errorCode < 0
    ensures e.code != Some(NoMatch)
    ensures errorCode == NoMatch ==> e.code == Some(SpeechTimeout)
    ensures errorCode >= 0 && errorCode != NoMatch ==> e.code == Some(errorCode)
  {
    Result(NullIfEmpty(spokenText), NormalizeCode(errorCode))
  }

  /** Normalising a code the listener already saw changes nothing. */
  lemma NormalizeCodeIdempotent(errorCode: int)
    requires NormalizeCode(errorCode).Some?
    ensures NormalizeCode(NormalizeCode(errorCode).value) == NormalizeCode(errorCode)
  {
  }

  class InteractionCallback {
    const listener: ListenerId
    const helper: CallbackHelper

    constructor (l: ListenerId)
      ensures listener == l && fresh(helper)
      ensures !helper.autoDestroy && !helper.destroyed && helper.pending == [] && helper.delivered == []
    {
      listener := l;
      helper := new CallbackHelper();
    }

    method OnReadyForSpeech()
      modifies helper`pending
      ensures helper.pending == old(helper.pending) + [Forward(listener, Ready)]
    {
      helper.CallOnMainThread(Forward(listener, Ready));
    }

    method OnBeginningOfSpeech()
      modifies helper`pending
      ensures helper.pending == old(helper.pending) + [Forward(listener, Begin)]
    {
      helper.CallOnMainThread(Forward(listener, Begin));
    }

    /** The level, normalised from decibels on the binder thread, is not modelled. */
    method OnVoiceLevelChanged(rmsDb: real)
      modifies helper`pending
      ensures helper.pending == old(helper.pending) + [Forward(listener, Voice)]
    {
      helper.CallOnMainThread(Forward(listener, Voice));
    }

    /** A null or empty partial result is dropped. */
    method OnPartialResultReceived(spokenText: Option<string>)
      modifies helper`pending
      ensures NullIfEmpty(spokenText).None? ==> helper.pending == old(helper.pending)
      ensures NullIfEmpty(spokenText).Some? ==>
        helper.pending == old(helper.pending) + [Forward(listener, Partial(spokenText.value))]
    {
      if spokenText.Some? && spokenText.value != [] {
        helper.CallOnMainThread(Forward(listener, Partial(spokenText.value)));
      }
    }

    method OnResultReceived(spokenText: Option<string>, errorCode: int)
      modifies helper`pending
      ensures helper.pending == old(helper.pending) + [ForwardFinal(listener, ResultEvent(spokenText, errorCode))]
    {
      helper.CallOnMainThread(ForwardFinal(listener, ResultEvent(spokenText, errorCode)));
    }
  }

  /** A session whose ready and result callbacks arrive within one frame: the
      listener hears both, the helper is gone, and a voice level the recogniser
      reports afterwards never reaches the listener. */
  method ResultEndsForwarding(l: ListenerId, spokenText: Option<string>, errorCode: int)
    returns (heard: seq<Delivery>, helperGone: bool)
    ensures heard == [Delivery(l, Ready), Delivery(l, ResultEvent(spokenText, errorCode))]
    ensures helperGone
  {
    var proxy := new InteractionCallback(l);
    proxy.OnReadyForSpeech();
    proxy.OnResultReceived(spokenText, errorCode);
    var batch := proxy.helper.pending;
    CleanBatchRunsWhole(batch);
    RunBatchStops(batch, None);
    assert batch[1].ForwardFinal?;
    var raised := proxy.helper.Update(None, []);
    proxy.OnVoiceLevelChanged(0.0);
    heard := proxy.helper.delivered;
    helperGone := proxy.helper.destroyed;
  }
}
