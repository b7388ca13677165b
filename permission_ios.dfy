/** The iOS permission bridge (STTPermissionCallbackiOS): one scene object
    holding at most one pending permission callback, answered by a message
    from the native side carrying the permission as decimal text. */
module PermissionIos {
  import opened Events
  import opened Int32Text
  import opened SpeechToText

  /** Identity of a PermissionCallback delegate handed in by the caller. */
  type CallbackId = nat

  /** The `i`th registration's callback was invoked with the integer `value`,
      cast to Permission (an integer outside the named members passes through the cast). */
  datatype Answer = Answer(registration: nat, value: int)

  /** What one native message did. */
  datatype Outcome =
    | NoCallback        // no callback was pending; the message is dropped
    | Delivered(value: int)
    | ParseFailed       // int.Parse threw; the pending callback is lost

  /** No registration is answered twice. */
  predicate AnsweredAtMostOnce(answers: seq<Answer>) {
    forall i, j | 0 <= i < j < |answers| :: answers[i].registration != answers[j].registration
  }

  predicate Unanswered(answers: seq<Answer>, r: nat) {
    forall i | 0 <= i < |answers| :: answers[i].registration != r
  }

  class PermissionSlot {
    var created: bool                   // the static instance exists
    var pending: Option<nat>            // the registration whose callback the instance holds
    var registered: seq<CallbackId>     // every callback passed to Initialize, in order
    var answers: seq<Answer>            // every callback invocation, in order

    ghost predicate Valid()
      reads this
    {
      && (!created ==> pending.None? && registered == [] && answers == [])
      && (forall i | 0 <= i < |answers| :: answers[i].registration < |registered|)
      && AnsweredAtMostOnce(answers)
      && (pending.Some? ==> pending.value == |registered| - 1 && Unanswered(answers, pending.value))
    }

    constructor ()
      ensures Valid() && !created
    {
      created, pending, registered, answers := false, None, [], [];
    }

    /** Registers `callback` as the one to answer. A callback still pending is
        superseded first: it is told ShouldAsk. */
    method Initialize(callback: CallbackId)
      requires Valid()
      modifies this
      ensures Valid() && created
      ensures registered == old(registered) + [callback]
      ensures pending == Some(|old(registered)|)
      ensures answers == old(answers) + (if old(pending).Some? then [Answer(old(pending).value, PermissionCode(ShouldAsk))] else [])
    {
      if !created {
        created := true;
      } else if pending.Some? {
        answers := answers + [Answer(pending.value, PermissionCode(ShouldAsk))];
      }
      registered := registered + [callback];
      pending := Some(|registered| - 1);
    }

    /** The native answer: the pending callback is cleared first, then, if
        there was one, invoked with the parsed integer. */
    method OnPermissionRequested(message: Option<string>) returns (outcome: Outcome)
      requires Valid() && created
      modifies this`pending, this`answers
      ensures Valid() && pending.None?
      ensures old(pending).None? ==> outcome == NoCallback && answers == old(answers)
      ensures old(pending).Some? && ParseInt32(message).Some? ==>
        outcome == Delivered(ParseInt32(message).value) &&
        answers == old(answers) + [Answer(old(pending).value, ParseInt32(message).value)]
      ensures old(pending).Some? && ParseInt32(message).None? ==> outcome == ParseFailed && answers == old(answers)
    {
      var held := pending;
      pending := None;
      if held.None? {
        return NoCallback;
      }
      var parsed := ParseInt32(message);
      if parsed.None? {
        return ParseFailed;
      }
      answers := answers + [Answer(held.value, parsed.value)];
      outcome := Delivered(parsed.value);
    }
  }

  /** A native answer carrying a permission's own code hands the callback that permission. */
  lemma NativeAnswerIsPermission(p: Permission)
    ensures ParseInt32(Some(DecimalText(PermissionCode(p)))) == Some(PermissionCode(p))
    ensures PermissionFromCode(ParseInt32(Some(DecimalText(PermissionCode(p)))).value) == Some(p)
  {
    ParseDecimalText(PermissionCode(p));
  }

  /** Two native answers to one request: the first reaches the callback, the
      second finds nothing pending. */
  method AnsweredOnce(callback: CallbackId, p: Permission, later: Option<string>)
    returns (first: Outcome, second: Outcome)
    ensures first == Delivered(PermissionCode(p)) && second == NoCallback
  {
    var slot := new PermissionSlot();
    slot.Initialize(callback);
    NativeAnswerIsPermission(p);
    first := slot.OnPermissionRequested(Some(DecimalText(PermissionCode(p))));
    second := slot.OnPermissionRequested(later);
  }

  /** A second request while the first is pending: the first callback is told
      ShouldAsk, and the native answer goes to the second. */
  method SupersededRequest(a: CallbackId, b: CallbackId, p: Permission)
    returns (answers: seq<Answer>)
    ensures answers == [Answer(0, PermissionCode(ShouldAsk)), Answer(1, PermissionCode(p))]
  {
    var slot := new PermissionSlot();
    slot.Initialize(a);
    slot.Initialize(b);
    NativeAnswerIsPermission(p);
    var outcome := slot.OnPermissionRequested(Some(DecimalText(PermissionCode(p))));
    answers := slot.answers;
  }
}
