/**
 * What `writeTag` does (app/index.tsx, lines 30-56), as the sequence of its
 * observable effects: each call of a state setter, each call into the NFC
 * hardware library and the scheduling of the delayed status reset. The state
 * the modal shows is what these effects leave behind, replayed in order.
 */
module WriteFlow {
  import opened Wrappers

  newtype byte = x: int | 0 <= x < 256

  const HoldMessage: string := "Hold an NFC tag near your device"
  const WritingMessage: string := "Writing to tag..."
  const SuccessMessage: string := "\U{2705} Tag written successfully!"
  const ErrorPrefix: string := "\U{274C} Error writing to tag: "
  const InvalidNdefText: string := "Invalid NDEF message"
  const UnknownErrorText: string := "Unknown error"
  /** Delay before the status is set back to null, in milliseconds. */
  const ResetDelayMs: nat := 2000

  /** The values of `nfcStatus` other than null. */
  datatype NfcStatus = Waiting | Writing | Success | Error

  /** The value `e` that reaches the catch block. */
  datatype Thrown =
    | WithMessage(text: string)  // its `message` is a string
    | WithoutMessage             // its `message` is null or undefined (also a thrown primitive)
    | Nullish                    // `e` itself is null or undefined, so reading `e.message` throws

  /** How a promise settles. */
  datatype Settled = Resolved | Rejected(reason: Thrown)

  /** One observable effect of the screen's code. */
  datatype Event =
    | SetStatus(status: Option<NfcStatus>)      // setNfcStatus
    | SetMessage(text: string)                  // setNfcMessage
    | RequestTechnology                         // NfcManager.requestTechnology(NfcTech.Ndef)
    | WriteNdefMessage(bytes: seq<byte>)        // NfcManager.writeNdefMessage(bytes, ...)
    | CancelTechnologyRequest(outcome: Settled) // NfcManager.cancelTechnologyRequest(), however it settles
    | ScheduleStatusReset(delayMs: nat)         // setTimeout(() => setNfcStatus(null), delayMs)

  /** The part of the screen's state that the modal shows. */
  datatype Screen = Screen(status: Option<NfcStatus>, message: string)

  /** `visible={!!nfcStatus}` */
  predicate ModalVisible(s: Screen) {
    s.status.Some?
  }

  /** `nfcStatus === 'writing' && <ActivityIndicator />` */
  predicate SpinnerShown(s: Screen) {
    s.status == Some(Writing)
  }

  function Apply(s: Screen, e: Event): Screen {
    match e
    case SetStatus(x) => s.(status := x)
    case SetMessage(m) => s.(message := m)
    case _ => s
  }

  /** The screen after the effects `es`, in order, starting from `s`. */
  function Replay(s: Screen, es: seq<Event>): Screen
    decreases |es|
  {
    if es == [] then s else Replay(Apply(s, es[0]), es[1..])
  }

  /** Replaying two runs of effects is replaying the first, then the second. */
  lemma {:induction false} ReplayAppend(s: Screen, a: seq<Event>, b: seq<Event>)
    ensures Replay(s, a + b) == Replay(Replay(s, a), b)
    decreases |a|
  {
    if a != [] {
      assert (a + b)[0] == a[0] && (a + b)[1..] == a[1..] + b;
      ReplayAppend(Apply(s, a[0]), a[1..], b);
    } else {
      assert a + b == b;
    }
  }

  /** Replaying two effects. */
  lemma ReplayTwo(s: Screen, e1: Event, e2: Event)
    ensures Replay(s, [e1, e2]) == Apply(Apply(s, e1), e2)
  {
    var s1 := Apply(s, e1);
    assert [e1, e2][1..] == [e2];
    assert Replay(s, [e1, e2]) == Replay(s1, [e2]);
    assert [e2][1..] == [];
    assert Replay(s1, [e2]) == Replay(Apply(s1, e2), []);
  }

  predicate IsRelease(e: Event) { e.CancelTechnologyRequest? }
  predicate IsResetScheduled(e: Event) { e.ScheduleStatusReset? }
  predicate IsStatusCleared(e: Event) { e == SetStatus(None) }
  /** A call into the hardware library. */
  predicate IsHardwareCall(e: Event) {
    e.RequestTechnology? || e.WriteNdefMessage? || e.CancelTechnologyRequest?
  }

  /** How many of `es` satisfy `p`. */
  function Count(es: seq<Event>, p: Event -> bool): nat
    decreases |es|
  {
    if es == [] then 0 else (if p(es[0]) then 1 else 0) + Count(es[1..], p)
  }

  lemma {:induction false} CountAppend(a: seq<Event>, b: seq<Event>, p: Event -> bool)
    ensures Count(a + b, p) == Count(a, p) + Count(b, p)
    decreases |a|
  {
    if a != [] {
      assert (a + b)[0] == a[0] && (a + b)[1..] == a[1..] + b;
      CountAppend(a[1..], b, p);
    } else {
      assert a + b == b;
    }
  }

  /** The value the catch block receives: that of the first step that fails, if any. */
  function Caught(acquire: Settled, encoded: Option<seq<byte>>, write: Settled): (r: Option<Thrown>)
    ensures r.None? <==> acquire.Resolved? && encoded.Some? && write.Resolved?
    ensures acquire.Rejected? ==> r == Some(acquire.reason)
    ensures acquire.Resolved? && encoded.None? ==> r == Some(WithMessage(InvalidNdefText))
    ensures acquire.Resolved? && encoded.Some? && write.Rejected? ==> r == Some(write.reason)
  {
    if acquire.Rejected? then Some(acquire.reason)
    else if encoded.None? then Some(WithMessage(InvalidNdefText))
    else if write.Rejected? then Some(write.reason)
    else None
  }

  /** The effects of the try block up to the statement that throws. */
  function TryEvents(acquire: Settled, encoded: Option<seq<byte>>, write: Settled): (r: seq<Event>)
    ensures |r| >= 1 && r[0] == RequestTechnology
    ensures acquire.Rejected? <==> r == [RequestTechnology]
    ensures acquire.Resolved? ==> |r| >= 3 && r[1..3] == [SetStatus(Some(Writing)), SetMessage(WritingMessage)]
  {
    [RequestTechnology] +
    if acquire.Rejected? then []
    else
      [SetStatus(Some(Writing)), SetMessage(WritingMessage)] +
      match encoded
      case None => []
      case Some(bytes) =>
        [WriteNdefMessage(bytes)] +
        if write.Rejected? then [] else [SetStatus(Some(Success)), SetMessage(SuccessMessage)]
  }

  /** The effects of the catch block for the value `e`. */
  function CatchEvents(e: Thrown): (r: seq<Event>)
    ensures |r| >= 1 && r[0] == SetStatus(Some(Error))
    ensures e.Nullish? <==> |r| == 1
    ensures e.WithMessage? ==> r[1] == SetMessage(ErrorPrefix + e.text)
    ensures e.WithoutMessage? ==> r[1] == SetMessage(ErrorPrefix + UnknownErrorText)
  {
    match e
    case WithMessage(text) => [SetStatus(Some(Error)), SetMessage(ErrorPrefix + text)]
    case WithoutMessage => [SetStatus(Some(Error)), SetMessage(ErrorPrefix + UnknownErrorText)]
    case Nullish => [SetStatus(Some(Error))]
  }

  /**
   * All effects of one `writeTag` call, given how the technology request
   * settles, what the encoder returns for the tag text (None for null), how
   * the write settles and how the release settles.
   */
  function WriteTagEvents(acquire: Settled, encoded: Option<seq<byte>>, write: Settled, release: Settled): (evs: seq<Event>)
    ensures |evs| >= 6
    ensures evs[..3] == [SetStatus(Some(Waiting)), SetMessage(HoldMessage), RequestTechnology]
    ensures evs[|evs| - 2..] == [CancelTechnologyRequest(release), ScheduleStatusReset(ResetDelayMs)]
  {
    [SetStatus(Some(Waiting)), SetMessage(HoldMessage)] +
    TryEvents(acquire, encoded, write) +
    (match Caught(acquire, encoded, write) case None => [] case Some(e) => CatchEvents(e)) +
    [CancelTechnologyRequest(release), ScheduleStatusReset(ResetDelayMs)]
  }

  /** The flow ends in 'success' exactly when the request, the encoding and the write all succeed, and in 'error' otherwise. */
  lemma WriteTagOutcome(s: Screen, acquire: Settled, encoded: Option<seq<byte>>, write: Settled, release: Settled)
    ensures var r := Replay(s, WriteTagEvents(acquire, encoded, write, release));
      && (r.status == Some(Success) <==> acquire.Resolved? && encoded.Some? && write.Resolved?)
      && (r.status != Some(Success) ==> r.status == Some(Error))
      && (r.status == Some(Success) ==> r.message == SuccessMessage)
  {
    ReplayConcrete(s, acquire, encoded, write, release);
  }

  /**
   * On failure the message is the error prefix followed by the error's own
   * message, or by "Unknown error" when it has none. When the thrown value is
   * null or undefined the catch block stops before setting a message, so the
   * last message set by the try block stays.
   */
  lemma WriteTagErrorMessage(s: Screen, acquire: Settled, encoded: Option<seq<byte>>, write: Settled, release: Settled)
    requires Caught(acquire, encoded, write).Some?
    ensures var r := Replay(s, WriteTagEvents(acquire, encoded, write, release));
      match Caught(acquire, encoded, write).value
      case WithMessage(text) => r.message == ErrorPrefix + text
      case WithoutMessage => r.message == ErrorPrefix + UnknownErrorText
      case Nullish => r.message == if acquire.Rejected? then HoldMessage else WritingMessage
  {
    ReplayConcrete(s, acquire, encoded, write, release);
  }

  /** When the encoder returns null the flow fails with "Invalid NDEF message" and nothing is written to the tag. */
  lemma InvalidNdefSkipsWrite(s: Screen, acquire: Settled, write: Settled, release: Settled)
    requires acquire.Resolved?
    ensures var evs := WriteTagEvents(acquire, None, write, release);
      && Replay(s, evs) == Screen(Some(Error), ErrorPrefix + InvalidNdefText)
      && forall i :: 0 <= i < |evs| ==> !evs[i].WriteNdefMessage?
  {
    ReplayConcrete(s, acquire, None, write, release);
  }

  /** Replays the effects of each path of the flow. */
  lemma ReplayConcrete(s: Screen, acquire: Settled, encoded: Option<seq<byte>>, write: Settled, release: Settled)
    ensures var r := Replay(s, WriteTagEvents(acquire, encoded, write, release));
      match Caught(acquire, encoded, write)
      case None => r == Screen(Some(Success), SuccessMessage)
      case Some(WithMessage(text)) => r == Screen(Some(Error), ErrorPrefix + text)
      case Some(WithoutMessage) => r == Screen(Some(Error), ErrorPrefix + UnknownErrorText)
      case Some(Nullish) => r == Screen(Some(Error), if acquire.Rejected? then HoldMessage else WritingMessage)
  {
    var head: seq<Event> := [SetStatus(Some(Waiting)), SetMessage(HoldMessage)];
    var tryPart := TryEvents(acquire, encoded, write);
    var catchPart := match Caught(acquire, encoded, write) case None => [] case Some(e) => CatchEvents(e);
    var tail: seq<Event> := [CancelTechnologyRequest(release), ScheduleStatusReset(ResetDelayMs)];
    ReplayAppend(s, head + tryPart + catchPart, tail);
    ReplayAppend(s, head + tryPart, catchPart);
    ReplayAppend(s, head, tryPart);
    ReplayTwo(s, head[0], head[1]);
    var afterHead := Replay(s, head);
    var afterTry := Replay(afterHead, tryPart);
    ReplayTwo(Replay(afterTry, catchPart), tail[0], tail[1]);
    // the try block
    var request: seq<Event> := [RequestTechnology];
    if acquire.Rejected? {
      assert tryPart == request;
      assert afterTry == afterHead;
    } else {
      var writing: seq<Event> := [SetStatus(Some(Writing)), SetMessage(WritingMessage)];
      ReplayTwo(afterHead, writing[0], writing[1]);
      if encoded.None? {
        assert tryPart == request + writing;
        ReplayAppend(afterHead, request, writing);
        assert afterTry == Screen(Some(Writing), WritingMessage);
      } else {
        var written: seq<Event> := [WriteNdefMessage(encoded.value)];
        var done: seq<Event> := if write.Rejected? then [] else [SetStatus(Some(Success)), SetMessage(SuccessMessage)];
        assert tryPart == request + writing + written + done;
        ReplayAppend(afterHead, request + writing + written, done);
        ReplayAppend(afterHead, request + writing, written);
        ReplayAppend(afterHead, request, writing);
        if write.Resolved? {
          ReplayTwo(Replay(afterHead, request + writing + written), done[0], done[1]);
        }
      }
    }
    // the catch block
    match Caught(acquire, encoded, write)
    case None =>
    case Some(e) =>
      if !e.Nullish? {
        ReplayTwo(afterTry, catchPart[0], catchPart[1]);
      }
  }

  /** The status and message are set to 'waiting' and "Hold an NFC tag..." before the first hardware call, which is the technology request. */
  lemma WaitingBeforeHardware(acquire: Settled, encoded: Option<seq<byte>>, write: Settled, release: Settled)
    ensures var evs := WriteTagEvents(acquire, encoded, write, release);
      && |evs| > 3
      && evs[..3] == [SetStatus(Some(Waiting)), SetMessage(HoldMessage), RequestTechnology]
      && forall i :: 0 <= i < |evs| && IsHardwareCall(evs[i]) ==> 2 <= i
  {
  }

  /** The status becomes 'writing' only when the technology request succeeds, and then right after it. */
  lemma WritingOnlyAfterAcquire(acquire: Settled, encoded: Option<seq<byte>>, write: Settled, release: Settled)
    ensures var evs := WriteTagEvents(acquire, encoded, write, release);
      && (SetStatus(Some(Writing)) in evs <==> acquire.Resolved?)
      && (acquire.Resolved? ==> evs[2] == RequestTechnology && evs[3] == SetStatus(Some(Writing)))
  {
  }

  lemma CatchNeverWriting(e: Option<Thrown>)
    ensures var catchPart := match e case None => [] case Some(t) => CatchEvents(t);
      && SetStatus(Some(Writing)) !in catchPart
      && SetStatus(None) !in catchPart
      && forall x :: x in catchPart ==> !IsHardwareCall(x)
  {
  }

  /** The tag is written exactly when the request succeeds and the encoder returns bytes, and it is written with those bytes. */
  lemma WriteAttemptedIff(acquire: Settled, encoded: Option<seq<byte>>, write: Settled, release: Settled, bytes: seq<byte>)
    ensures WriteNdefMessage(bytes) in WriteTagEvents(acquire, encoded, write, release)
        <==> acquire.Resolved? && encoded == Some(bytes)
  {
  }

  /** Zero occurrences when no element satisfies `p`. */
  lemma {:induction false} CountNone(es: seq<Event>, p: Event -> bool)
    requires forall x :: x in es ==> !p(x)
    ensures Count(es, p) == 0
    decreases |es|
  {
    if es != [] {
      assert es[0] in es;
      forall x | x in es[1..] ensures !p(x) {
        assert x in es;
      }
      CountNone(es[1..], p);
    }
  }

  /**
   * The hardware is released exactly once and a single status reset is
   * scheduled, on every path, as the last two effects (the finally block).
   */
  lemma ReleaseAndResetOnce(acquire: Settled, encoded: Option<seq<byte>>, write: Settled, release: Settled)
    ensures var evs := WriteTagEvents(acquire, encoded, write, release);
      && Count(evs, IsRelease) == 1
      && Count(evs, IsResetScheduled) == 1
      && evs[|evs| - 2] == CancelTechnologyRequest(release)
      && evs[|evs| - 1] == ScheduleStatusReset(ResetDelayMs)
  {
    var evs := WriteTagEvents(acquire, encoded, write, release);
    var catchPart := match Caught(acquire, encoded, write) case None => [] case Some(e) => CatchEvents(e);
    var body := [SetStatus(Some(Waiting)), SetMessage(HoldMessage)] + TryEvents(acquire, encoded, write) + catchPart;
    var tail := [CancelTechnologyRequest(release), ScheduleStatusReset(ResetDelayMs)];
    CatchNeverWriting(Caught(acquire, encoded, write));
    assert evs == body + tail;
    CountNone(body, IsRelease);
    CountNone(body, IsResetScheduled);
    CountAppend(body, tail, IsRelease);
    CountAppend(body, tail, IsResetScheduled);
    assert tail[1..] == [ScheduleStatusReset(ResetDelayMs)] && tail[1..][1..] == [];
    assert Count(tail[1..], IsRelease) == 0 && Count(tail[1..], IsResetScheduled) == 1;
  }

  /** How the release settles has no effect on the screen: a failing release is swallowed. */
  lemma ReleaseOutcomeIgnored(s: Screen, acquire: Settled, encoded: Option<seq<byte>>, write: Settled, r1: Settled, r2: Settled)
    ensures Replay(s, WriteTagEvents(acquire, encoded, write, r1)) == Replay(s, WriteTagEvents(acquire, encoded, write, r2))
  {
    ReplayConcrete(s, acquire, encoded, write, r1);
    ReplayConcrete(s, acquire, encoded, write, r2);
  }

  /** A status that is set stays set while no effect clears it. */
  lemma {:induction false} StatusStaysSet(s: Screen, es: seq<Event>)
    requires s.status.Some? && SetStatus(None) !in es
    ensures Replay(s, es).status.Some?
    decreases |es|
  {
    if es != [] {
      assert es[0] in es;
      assert forall x :: x in es[1..] ==> x in es;
      StatusStaysSet(Apply(s, es[0]), es[1..]);
    }
  }

  /** A status different from the starting one was put there by one of the effects. */
  lemma {:induction false} StatusFromEvent(s: Screen, es: seq<Event>)
    requires Replay(s, es).status != s.status
    ensures SetStatus(Replay(s, es).status) in es
    decreases |es|
  {
    var s1 := Apply(s, es[0]);
    if Replay(s1, es[1..]).status != s1.status {
      StatusFromEvent(s1, es[1..]);
      assert forall x :: x in es[1..] ==> x in es;
    } else {
      assert es[0] == SetStatus(s1.status);
    }
  }

  /** Replaying a non-empty prefix is replaying its first effect, then the rest of the prefix. */
  lemma ReplayPrefix(s: Screen, es: seq<Event>, k: nat)
    requires 1 <= k <= |es|
    ensures Replay(s, es[..k]) == Replay(Apply(s, es[0]), es[1..k])
  {
  }

  /** After each effect of the flow, from the first one on, the modal is visible. */
  lemma ModalShownThroughout(s: Screen, acquire: Settled, encoded: Option<seq<byte>>, write: Settled, release: Settled, k: nat)
    requires 1 <= k <= |WriteTagEvents(acquire, encoded, write, release)|
    ensures ModalVisible(Replay(s, WriteTagEvents(acquire, encoded, write, release)[..k]))
  {
    var evs := WriteTagEvents(acquire, encoded, write, release);
    CatchNeverWriting(Caught(acquire, encoded, write));
    assert SetStatus(None) !in evs;
    assert forall x :: x in evs[1..k] ==> x in evs;
    ReplayPrefix(s, evs, k);
    StatusStaysSet(Apply(s, evs[0]), evs[1..k]);
  }

  /**
   * The spinner is shown only once the technology request has been made and
   * has succeeded, and it is gone when the flow ends.
   */
  lemma SpinnerOnlyAfterAcquire(s: Screen, acquire: Settled, encoded: Option<seq<byte>>, write: Settled, release: Settled, k: nat)
    requires 1 <= k <= |WriteTagEvents(acquire, encoded, write, release)|
    ensures var evs := WriteTagEvents(acquire, encoded, write, release);
      && (SpinnerShown(Replay(s, evs[..k])) ==> acquire.Resolved? && RequestTechnology in evs[..k])
      && !SpinnerShown(Replay(s, evs))
  {
    var evs := WriteTagEvents(acquire, encoded, write, release);
    var s1 := Apply(s, evs[0]);
    ReplayPrefix(s, evs, k);
    if SpinnerShown(Replay(s, evs[..k])) {
      StatusFromEvent(s1, evs[1..k]);
      var j :| 1 <= j < k && evs[j] == SetStatus(Some(Writing));
      WaitingBeforeHardware(acquire, encoded, write, release);
      WritingOnlyAfterAcquire(acquire, encoded, write, release);
      assert evs[..k][2] == RequestTechnology;
    }
    WriteTagOutcome(s, acquire, encoded, write, release);
  }
}
