# UnitySpeechToText session bookkeeping, modelled in Dafny

UnitySpeechToText lets a Unity game use the speech recogniser of Android or
iOS. A game starts a session with a listener (`ISpeechToTextListener`). The
listener is told when the recogniser is ready, when speech begins, the voice
level, partial results, and finally one result, which carries either the text
or an error code. Most of the plugin forwards calls to native code. This
project models and verifies the parts that keep the bookkeeping in C#:

- **iOS interaction callback** (`InteractionIos`, `interaction_ios.dfy`): a
  single object holding the one live listener.
  - A new session supersedes a pending listener with error code 8.
  - Begin is sent once per session, just before the first partial result.
  - The listener is cleared before the final result or error is sent.
  - A polling loop forwards changed voice levels.
  - The protocol each session follows is an automaton (`Step`/`Run`). The
    model proves it equal to five event-by-event rules: Ready at most once;
    Begin at most once; Ready before everything except voice levels; Begin
    before every partial, and no empty partials; a result only as the last
    event. The class invariant keeps every session in the log accepted.
- **iOS permission callback** (`PermissionIos`, `permission_ios.dfy`): a
  single slot for one pending permission callback.
  - A superseded callback is told ShouldAsk.
  - The native answer clears the slot, then calls the callback with the parsed
    integer.
  - No registration is ever answered twice.
- **Decimal parsing** (`Int32Text`, `int32_text.dfy`): .NET's `int.Parse` and
  `int.TryParse` with the default integer style. These read the native error
  and permission codes. The model proves that parsing what `ToString` prints
  gives the number back.
- **Android main-thread helper** (`CallbackHelperAndroid`,
  `callback_helper_android.dfy`): enqueued listener calls wait for the next
  frame. Then the whole batch is taken and run in order, until a listener call
  throws.
  - `RunBatch` is the specification of a batch. `Invoke` runs the batch with a
    loop and is proved against it, and `Update` calls `Invoke`.
  - With auto-destroy set, `Update`'s own `Destroy(gameObject)` also throws
    when a result action has already destroyed the object.
  - Lemmas say which calls a batch makes and why it stops early.
- **Android interaction proxy** (`InteractionAndroid`,
  `interaction_android.dfy`): every native callback queues one action.
  - Result normalisation: 7 becomes 6; a negative code means no error; empty
    text becomes null.
  - The result action destroys the helper.
- **The public `SpeechToText` class** (`SpeechToText`, `speech_to_text.dfy`):
  the two enums and their integer codes, and the answers given where no
  native recogniser exists. It also has the editor's emulated session: a
  script of four callbacks, ended by `ForceStop`, `Cancel` or the end of the
  script. The class invariant keeps every emulated session, apart from voice
  levels, a prefix of the script; every finished session then ends with
  exactly one result.

Listeners and callbacks are opaque identities (`ListenerId`, `CallbackId`).
What each listener received is kept as a log of sessions
(`seq<Session(listener, events)>`, where `Event` is `Ready | Begin |
Partial(text) | Voice | Result(text?, code?)`). Sessions never overlap
(a new one first ends the old one), so the log keeps their order. Native
inputs are method parameters:
- the polling loop's voice samples;
- the message strings from iOS;
- which listener call throws (`fault` in `CallbackHelper.Update`).

Unity behaviour the model relies on:
- `StartCoroutine` runs a coroutine at once up to its first `yield`.
  On iOS, `Initialize` can therefore deliver a voice level before Ready when
  it starts the polling loop.
- A destroyed `UnityEngine.Object` compares equal to null. So the editor's
  `IsBusy` is false as soon as `StopEmulateSpeechOnEditor` has destroyed the
  emulator, before it calls the listener.
- Destroying a coroutine's host does not run the coroutine's `finally`. So
  `ForceStop` or `Cancel` does not trigger a second result from the script's
  `finally`.
- After `DestroyImmediate`, `callbackHelper.gameObject` throws. A second
  result action in one Android batch therefore raises after calling its
  listener.

## Model

| member | source | states |
|---|---|---|
| Events.NullIfEmpty | Plugins/SpeechToText/iOS/STTInteractionCallbackiOS.cs:93 | the text is null exactly when it was null or empty, and unchanged otherwise |
| Events.Deliver | Plugins/SpeechToText/ISpeechToTextListener.cs:6-36 | a listener call appends the event to the latest session only, leaving every earlier session and the listener as they were |
| Int32Text.ParseInt32 | Plugins/SpeechToText/iOS/STTInteractionCallbackiOS.cs:105 | a parsed number always lies in the Int32 range |
| Int32Text.ParseDecimalText | Plugins/SpeechToText/iOS/STTInteractionCallbackiOS.cs:104-106 | parsing the decimal text of any Int32 gives that Int32 back |
| Int32Text.NoDigitsNoNumber | Plugins/SpeechToText/iOS/STTInteractionCallbackiOS.cs:105-106 | a null message, or one without digits, never parses |
| InteractionIos.RunConforms | Plugins/SpeechToText/iOS/STTInteractionCallbackiOS.cs:19-110 | the session automaton accepts a log exactly when it meets the five event-by-event rules (both directions), and its phase is the one read off the log |
| InteractionIos.ErrorCode | Plugins/SpeechToText/iOS/STTInteractionCallbackiOS.cs:104-106 | the reported code is the parsed Int32 when the message parses, and -1 otherwise |
| InteractionIos.SessionGuard.constructor | Plugins/SpeechToText/iOS/STTInteractionCallbackiOS.cs:9-12 | before any session there is no instance, no listener and no polling loop |
| InteractionIos.SessionGuard.Initialize | Plugins/SpeechToText/iOS/STTInteractionCallbackiOS.cs:19-36 | a pending listener gets exactly Result(null, 8), then the new listener is installed with the Begin flag reset; a polling loop is started only if none runs; the new session opens with Ready, preceded by the loop's first voice level when a new loop sees a sample other than -1; the invariant is kept |
| InteractionIos.SessionGuard.PollStep | Plugins/SpeechToText/iOS/STTInteractionCallbackiOS.cs:38-58 | while a listener is installed, a changed sample reaches it as one voice level and becomes the last sample; with no listener the loop ends and clears its handle |
| InteractionIos.SessionGuard.OnVoiceLevelChanged | Plugins/SpeechToText/iOS/STTInteractionCallbackiOS.cs:62-67 | the live listener gets one voice level; with none installed the log is unchanged |
| InteractionIos.SessionGuard.OnPartialResultReceived | Plugins/SpeechToText/iOS/STTInteractionCallbackiOS.cs:70-84 | the first partial of a session is preceded by exactly one Begin, even when the partial itself is empty and dropped; non-empty text is forwarded unchanged; with no listener nothing happens |
| InteractionIos.SessionGuard.OnResultReceived | Plugins/SpeechToText/iOS/STTInteractionCallbackiOS.cs:87-94 | the listener is cleared, and a listener that was installed gets Result(text or null, null); a later message finds no listener |
| InteractionIos.SessionGuard.OnError | Plugins/SpeechToText/iOS/STTInteractionCallbackiOS.cs:97-110 | the listener is cleared, and a listener that was installed gets Result(null, parsed code or -1) |
| InteractionIos.SessionGuard.EverySessionConforms | Plugins/SpeechToText/iOS/STTInteractionCallbackiOS.cs:19-110 | in every reachable state, every listener's log meets the protocol: at most one result, and nothing after it; Begin once, before any partial; Ready once, before anything but voice levels |
| PermissionIos.PermissionSlot.constructor | Plugins/SpeechToText/iOS/STTPermissionCallbackiOS.cs:8-9 | before any request there is no instance, no pending callback, and nothing registered or answered |
| PermissionIos.PermissionSlot.Initialize | Plugins/SpeechToText/iOS/STTPermissionCallbackiOS.cs:11-22 | the first call creates the instance and calls nothing; later calls tell a still-pending callback ShouldAsk (2); the new callback becomes the pending one; no registration is answered twice |
| PermissionIos.PermissionSlot.OnPermissionRequested | Plugins/SpeechToText/iOS/STTPermissionCallbackiOS.cs:25-32 | the slot is always left empty; with nothing pending the message is dropped; otherwise the callback gets the parsed integer, or, when the message is not a number, is lost without a call |
| PermissionIos.NativeAnswerIsPermission | Plugins/SpeechToText/iOS/STTPermissionCallbackiOS.cs:31 | a message holding a permission's decimal code hands the callback exactly that permission |
| PermissionIos.AnsweredOnce | Plugins/SpeechToText/iOS/STTPermissionCallbackiOS.cs:27-31 | of two native answers to one request, the first reaches the callback and the second finds nothing pending |
| PermissionIos.SupersededRequest | Plugins/SpeechToText/iOS/STTPermissionCallbackiOS.cs:18-21 | a second request while one is pending answers the first with ShouldAsk and routes the native answer to the second |
| CallbackHelperAndroid.RunBatchCalls | Plugins/SpeechToText/Android/STTCallbackHelper.cs:24-26 | a batch makes the listener calls of its first actions, in queue order, and all of them unless an exception escaped |
| CallbackHelperAndroid.StepAction | Plugins/SpeechToText/Android/STTInteractionCallbackAndroid.cs:54-64 | one queued action: a result action destroys the object even when its listener threw; a second result action throws; any other action throws only when its listener does, and leaves the object as it was |
| CallbackHelperAndroid.RunBatch | Plugins/SpeechToText/Android/STTCallbackHelper.cs:26 | the delegate invocation makes at most one listener call per action; it makes every call unless an exception escaped, and it has made at least one call when one did |
| CallbackHelperAndroid.RunBatchDestroys | Plugins/SpeechToText/Android/STTInteractionCallbackAndroid.cs:60-63 | the game object is destroyed exactly when a result action was among the actions that ran |
| CallbackHelperAndroid.RunBatchRaises | Plugins/SpeechToText/Android/STTCallbackHelper.cs:26 | an exception escapes only at the last action that ran, when its listener threw or it was a second result action |
| CallbackHelperAndroid.RunBatchStops | Plugins/SpeechToText/Android/STTCallbackHelper.cs:20-33 | an exception escapes only at the last action that ran, when its listener threw or it was a second result action; the game object is destroyed exactly when a result action ran, even if its listener threw |
| CallbackHelperAndroid.RaisedStops | Plugins/SpeechToText/Android/STTCallbackHelper.cs:24-26 | once an action throws, the rest of the batch does nothing: it is dropped |
| CallbackHelperAndroid.CleanBatchRunsWhole | Plugins/SpeechToText/Android/STTCallbackHelper.cs:24-26 | with no throwing listener and at most one result action, every queued call is made, in queue order |
| CallbackHelperAndroid.CallbackHelper.constructor | Plugins/SpeechToText/Android/STTCallbackHelper.cs:8-9 | a new helper has nothing queued and is not auto-destroying |
| CallbackHelperAndroid.CallbackHelper.AutoDestroy | Plugins/SpeechToText/Android/STTCallbackHelper.cs:37-41 | sets the flag and returns the same helper |
| CallbackHelperAndroid.CallbackHelper.CallOnMainThread | Plugins/SpeechToText/Android/STTCallbackHelper.cs:43-49 | the action is appended behind everything queued; nothing else changes |
| CallbackHelperAndroid.CallbackHelper.Invoke | Plugins/SpeechToText/Android/STTCallbackHelper.cs:26 | the loop makes exactly the listener calls RunBatch makes, in order, and ends with its destroyed flag and its exception outcome |
| CallbackHelperAndroid.CallbackHelper.Update | Plugins/SpeechToText/Android/STTCallbackHelper.cs:16-35 | with nothing queued nothing changes, even with auto-destroy set. Otherwise the queue is snapshotted and cleared, and the snapshot runs as RunBatch says. What the running actions queue waits for the next frame. With auto-destroy set the helper is destroyed afterwards, even if an action threw. An exception leaves Update when the batch raised, or when auto-destroy finds the object already destroyed by a result action |
| InteractionAndroid.NormalizeCode | Plugins/SpeechToText/Android/STTInteractionCallbackAndroid.cs:51-58 | no code is reported exactly when the native code is negative; 7 becomes 6; any other non-negative code passes unchanged, so 7 is never reported |
| InteractionAndroid.ResultEvent | Plugins/SpeechToText/Android/STTInteractionCallbackAndroid.cs:51-58 | the result's text is null exactly when the native text is null or empty, and unchanged otherwise; no code is reported exactly when the native code is negative; 7 is reported as 6, and every other non-negative code unchanged |
| InteractionAndroid.NormalizeCodeIdempotent | Plugins/SpeechToText/Android/STTInteractionCallbackAndroid.cs:51-58 | normalising a reported code again changes nothing |
| InteractionAndroid.InteractionCallback.constructor | Plugins/SpeechToText/Android/STTInteractionCallbackAndroid.cs:11-15 | each proxy gets its own new helper for its listener |
| InteractionAndroid.InteractionCallback.OnReadyForSpeech | Plugins/SpeechToText/Android/STTInteractionCallbackAndroid.cs:18-21 | queues exactly one Ready for the listener, with no guard |
| InteractionAndroid.InteractionCallback.OnBeginningOfSpeech | Plugins/SpeechToText/Android/STTInteractionCallbackAndroid.cs:24-27 | queues exactly one Begin for the listener, with no guard |
| InteractionAndroid.InteractionCallback.OnVoiceLevelChanged | Plugins/SpeechToText/Android/STTInteractionCallbackAndroid.cs:31-36 | queues exactly one voice level for the listener |
| InteractionAndroid.InteractionCallback.OnPartialResultReceived | Plugins/SpeechToText/Android/STTInteractionCallbackAndroid.cs:39-43 | null or empty text queues nothing; other text queues one Partial with the text unchanged |
| InteractionAndroid.InteractionCallback.OnResultReceived | Plugins/SpeechToText/Android/STTInteractionCallbackAndroid.cs:46-65 | queues one result action carrying the normalised result; running it destroys the helper |
| InteractionAndroid.ResultEndsForwarding | Plugins/SpeechToText/Android/STTInteractionCallbackAndroid.cs:54-64 | Ready and the result, queued in one frame, both reach the listener in order, and the helper is gone afterwards |
| SpeechToText.PermissionCode | Plugins/SpeechToText/SpeechToText.cs:11-25 | Denied, Granted and ShouldAsk are 0, 1 and 2 |
| SpeechToText.PermissionFromCode | Plugins/SpeechToText/SpeechToText.cs:11-25 | 0, 1 and 2 name a member, which encodes back to the same integer; no member has any other integer |
| SpeechToText.LanguageSupportCode | Plugins/SpeechToText/SpeechToText.cs:27-45 | Unknown, NotSupported, Supported and LikelySupported are -1 to 2 |
| SpeechToText.LanguageSupportFromCode | Plugins/SpeechToText/SpeechToText.cs:27-45 | -1 to 2 name a member, which encodes back to the same integer; no member has any other integer |
| SpeechToText.InitializeFallback | Plugins/SpeechToText/SpeechToText.cs:137 | without a native recogniser, Initialize succeeds |
| SpeechToText.IsLanguageSupportedFallback | Plugins/SpeechToText/SpeechToText.cs:149 | every language is reported Supported (code 1) |
| SpeechToText.IsServiceAvailableFallback | Plugins/SpeechToText/SpeechToText.cs:169 | the service is reported available |
| SpeechToText.CheckPermissionFallback | Plugins/SpeechToText/SpeechToText.cs:196 | permission is reported granted |
| SpeechToText.RequestPermissionFallback | Plugins/SpeechToText/SpeechToText.cs:212 | the callback is called once, synchronously, with Granted |
| SpeechToText.IsBusyOther | Plugins/SpeechToText/SpeechToText.cs:183 | on an unsupported platform no session is ever in progress |
| SpeechToText.StartOther | Plugins/SpeechToText/SpeechToText.cs:285 | on an unsupported platform Start reports success |
| SpeechToText.EndedOneResult | Plugins/SpeechToText/SpeechToText.cs:354-363 | a finished session holds exactly one result, its last event |
| SpeechToText.EditorEndedOneResult | Plugins/SpeechToText/SpeechToText.cs:354-363 | a finished emulated session ends with ForceStop's or Cancel's result, and holds no other result |
| SpeechToText.EditorEmulator.constructor | Plugins/SpeechToText/SpeechToText.cs:110-111 | before any session there is no emulator and no listener |
| SpeechToText.EditorEmulator.IsBusy | Plugins/SpeechToText/SpeechToText.cs:180-181 | busy exactly when an emulator exists, which is exactly when the latest session has not ended |
| SpeechToText.EditorEmulator.Start | Plugins/SpeechToText/SpeechToText.cs:279-283 | records the listener, opens a session that has heard nothing yet, makes IsBusy true and returns true |
| SpeechToText.EditorEmulator.StopEmulateSpeechOnEditor | Plugins/SpeechToText/SpeechToText.cs:354-363 | with no emulator nothing happens; otherwise the session's listener gets exactly one result, and the emulator and listener are cleared |
| SpeechToText.EditorEmulator.ForceStop | Plugins/SpeechToText/SpeechToText.cs:299-300 | ends a running session with Result("Hello world", null); afterwards IsBusy is false, so a repeat does nothing |
| SpeechToText.EditorEmulator.Cancel | Plugins/SpeechToText/SpeechToText.cs:313-314 | ends a running session with Result(null, 0); afterwards IsBusy is false, so a repeat does nothing |
| SpeechToText.EditorEmulator.ScriptStep | Plugins/SpeechToText/SpeechToText.cs:319-339 | each resumption sends the next of Ready, Begin, Partial("Hello"), Partial("Hello world"), and keeps the session's listener; the one after them ends the session as ForceStop does and clears the listener |
| SpeechToText.EditorEmulator.VoiceTick | Plugins/SpeechToText/SpeechToText.cs:341-352 | while a session runs, a voice level reaches its listener without moving the script |
| SpeechToText.UninterruptedEditorSession | Plugins/SpeechToText/SpeechToText.cs:319-339 | a session left alone logs Ready, Begin, Partial("Hello"), Partial("Hello world") and Result("Hello world", null), in that order |
| SpeechToText.CancelThenForceStop | Plugins/SpeechToText/SpeechToText.cs:354-363 | Cancel followed by ForceStop gives the listener one result, Cancel's, and leaves nothing busy |

## Left out

- Native bridge calls are not modelled. These are the `DllImport` functions, the Android Java classes and `_SpeechToText_GetAudioRmsdB`. Their results enter as parameters: the polling samples, the message strings, and which listener call throws.
- The Android and iOS branches of `Initialize`, `IsLanguageSupported`, `IsServiceAvailable`, `IsBusy`, `CheckPermission`, `RequestPermissionAsync`, `Start`, `ForceStop` and `Cancel` are left out: each only forwards to native code. `Start` on iOS leads into `InteractionIos.SessionGuard.Initialize`, which is modelled.
- Plugins/SpeechToText/Editor/STTPostProcessBuild.cs is not part of this model: it is build-time file I/O and Xcode project editing.
- Plugins/SpeechToText/Android/STTPermissionCallbackAndroid.cs is not part of this model. Its synchronous class is a cross-thread handshake. Its asynchronous class only forwards into the main-thread helper, which is modelled.
- The lock in STTCallbackHelper and all cross-thread interleaving are left out. Update holds the lock while it runs its batch, so the helper is modelled as a sequential queue.
- Voice level values are left out. They are floating-point arithmetic: the decibel mappings on iOS and Android and the Perlin-noise emulator. Every voice level is the opaque event `Voice`, and the iOS polling loop compares samples as reals. NaN samples are not modelled.
- Coroutine timing is left out (`WaitForSecondsRealtime` and frame yields). A coroutine resumption is a method call, so the model allows any interleaving of the editor's script steps and voice ticks.
- The `Task` wrapper around `RequestPermissionAsync` is left out: it is asynchronous library plumbing.
- Listener and callback exceptions are modelled only in the Android helper. Elsewhere a throwing listener would leave fields half-updated, and the model does not cover that.
- Re-entrant listeners are not modelled: a listener that calls back into the plugin while it is being notified.
- Passing a null listener or null callback is not modelled.
- Game objects destroyed from outside the plugin are not modelled; all are kept with `DontDestroyOnLoad`.
- SpeechToText.EditorEmulator.Start: requires that no session is in progress, as the `IsBusy` documentation demands of callers. The code itself does not check this. A start while busy would leave the old emulator's script running against the new listener, and that is not modelled.
- Int32Text.ParseInt32: .NET also accepts trailing NUL characters and culture-specific sign symbols. These are left out, so only ASCII white space, `+` and `-` are modelled.
- InteractionAndroid.InteractionCallback.OnVoiceLevelChanged: the normalised level is not carried in the event.
