/**
 * The screen component (app/index.tsx, lines 10-56): its state, the two
 * effects that keep the shown list in step with the search text, the tag
 * writing flow and the delayed status reset it schedules.
 */
module StoryApp {
  import opened Wrappers
  import opened CatalogSearch
  import opened WriteFlow
  import opened TagPayload

  /** `nfcStatus` and `nfcMessage` as `useState` first creates them. */
  const InitialScreen: Screen := Screen(None, "")

  class App {
    /** The bundled story catalog, read once. */
    const catalog: seq<Story>
    var search: string
    var filtered: seq<Story>
    var status: Option<NfcStatus>
    var message: string
    var nfcStarted: bool
    /** Calls of `cancelTechnologyRequest` so far. */
    var releases: nat
    /** Status resets scheduled and not yet fired. */
    var pendingResets: nat
    /** Every effect of the screen so far, in order. */
    ghost var trace: seq<Event>

    function View(): Screen
      reads this
    {
      Screen(status, message)
    }

    /** The modal shows what the recorded effects leave behind; every release and every scheduled reset is recorded. */
    ghost predicate Valid()
      reads this
    {
      && View() == Replay(InitialScreen, trace)
      && releases == Count(trace, IsRelease)
      && pendingResets + Count(trace, IsStatusCleared) == Count(trace, IsResetScheduled)
    }

    /** The first render: the `useState` initial values. */
    constructor (catalog: seq<Story>)
      ensures Valid()
      ensures this.catalog == catalog && search == "" && filtered == []
      ensures View() == InitialScreen && !ModalVisible(View())
      ensures !nfcStarted && releases == 0 && pendingResets == 0 && trace == []
    {
      this.catalog := catalog;
      search, filtered := "", [];
      status, message := None, "";
      nfcStarted := false;
      releases, pendingResets := 0, 0;
      trace := [];
    }

    /** The effects that run after the first render: start the NFC manager and show the whole catalog, then apply the search. */
    method Mount()
      requires Valid()
      modifies this
      ensures Valid()
      ensures nfcStarted
      ensures filtered == FilterStories(catalog, search)
      ensures old(search) == "" ==> filtered == catalog
      ensures search == old(search) && View() == old(View()) && trace == old(trace)
      ensures releases == old(releases) && pendingResets == old(pendingResets)
    {
      nfcStarted := true;
      filtered := catalog;
      ApplySearch();
      if search == "" {
        FilterEmptySearch(catalog);
      }
    }

    /** Typing in the search box: `setSearch`, then the effect that depends on `search`. */
    method OnSearchChange(text: string)
      requires Valid()
      modifies this
      ensures Valid()
      ensures search == text
      ensures filtered == FilterStories(catalog, text)
      ensures View() == old(View()) && trace == old(trace) && nfcStarted == old(nfcStarted)
      ensures releases == old(releases) && pendingResets == old(pendingResets)
    {
      search := text;
      ApplySearch();
    }

    /** The effect body: the list is recomputed from the whole catalog, whatever it showed before. */
    method ApplySearch()
      requires Valid()
      modifies this`filtered
      ensures filtered == FilterStories(catalog, search)
    {
      var term := Lower(search);
      filtered := Keep(catalog, term);
    }

    /** One effect: record it and update the state it touches. */
    method Perform(e: Event)
      requires Valid()
      requires IsStatusCleared(e) ==> pendingResets > 0
      modifies this
      ensures Valid()
      ensures trace == old(trace) + [e]
      ensures View() == Apply(old(View()), e)
      ensures releases == old(releases) + (if IsRelease(e) then 1 else 0)
      ensures pendingResets == old(pendingResets) + (if IsResetScheduled(e) then 1 else 0) - (if IsStatusCleared(e) then 1 else 0)
      ensures search == old(search) && filtered == old(filtered) && nfcStarted == old(nfcStarted)
    {
      match e {
        case SetStatus(x) =>
          status := x;
          if x.None? {
            pendingResets := pendingResets - 1;
          }
        case SetMessage(m) =>
          message := m;
        case CancelTechnologyRequest(_) =>
          // `.catch(() => {})`: however the release settles, nothing else happens.
          releases := releases + 1;
        case ScheduleStatusReset(_) =>
          pendingResets := pendingResets + 1;
        case RequestTechnology =>
        case WriteNdefMessage(_) =>
      }
      ReplayAppend(InitialScreen, old(trace), [e]);
      assert [e][1..] == [];
      assert Replay(Apply(old(View()), e), []) == Apply(old(View()), e);
      CountAppend(old(trace), [e], IsRelease);
      CountAppend(old(trace), [e], IsStatusCleared);
      CountAppend(old(trace), [e], IsResetScheduled);
      trace := trace + [e];
    }

    /**
     * `writeTag(id)`. The hardware steps are inputs: how the technology
     * request settles, what the NDEF encoder returns for a text (None for
     * null), how the write settles and how the release settles. Returns
     * whether the call's promise rejects, which happens when the thrown value
     * is null or undefined and reading its message throws inside the catch
     * block.
     */
    method WriteTag(id: string, encoder: string -> Option<seq<byte>>, acquire: Settled, write: Settled, release: Settled)
      returns (escaped: bool)
      requires Valid()
      modifies this
      ensures Valid()
      ensures trace == old(trace) + WriteTagEvents(acquire, encoder(TagCode(id)), write, release)
      ensures View() == Replay(old(View()), WriteTagEvents(acquire, encoder(TagCode(id)), write, release))
      ensures releases == old(releases) + 1
      ensures pendingResets == old(pendingResets) + 1
      ensures escaped <==> Caught(acquire, encoder(TagCode(id)), write) == Some(Nullish)
      ensures search == old(search) && filtered == old(filtered) && nfcStarted == old(nfcStarted)
    {
      var code := TagCode(id);
      Perform(SetStatus(Some(Waiting)));
      Perform(SetMessage(HoldMessage));
      var caught := TryBlock(code, encoder, acquire, write);
      escaped := CatchBlock(caught);
      FinallyBlock(release);
      assert trace == old(trace) + WriteTagEvents(acquire, encoder(code), write, release);
      ReplayAppend(InitialScreen, old(trace), WriteTagEvents(acquire, encoder(code), write, release));
    }

    /** The try block of `writeTag`; returns the value that reaches the catch block, if any. */
    method TryBlock(code: string, encoder: string -> Option<seq<byte>>, acquire: Settled, write: Settled)
      returns (caught: Option<Thrown>)
      requires Valid()
      modifies this
      ensures Valid()
      ensures trace == old(trace) + TryEvents(acquire, encoder(code), write)
      ensures caught == Caught(acquire, encoder(code), write)
      ensures releases == old(releases) && pendingResets == old(pendingResets)
      ensures search == old(search) && filtered == old(filtered) && nfcStarted == old(nfcStarted)
    {
      caught := None;
      Perform(RequestTechnology);
      if acquire.Rejected? {
        caught := Some(acquire.reason);
        return;
      }
      Perform(SetStatus(Some(Writing)));
      Perform(SetMessage(WritingMessage));
      var bytes := encoder(code);
      if bytes.None? {
        caught := Some(WithMessage(InvalidNdefText));
        return;
      }
      Perform(WriteNdefMessage(bytes.value));
      if write.Rejected? {
        caught := Some(write.reason);
        return;
      }
      Perform(SetStatus(Some(Success)));
      Perform(SetMessage(SuccessMessage));
    }

    /** The catch block of `writeTag`; returns whether it throws itself. */
    method CatchBlock(caught: Option<Thrown>) returns (escaped: bool)
      requires Valid()
      modifies this
      ensures Valid()
      ensures trace == old(trace) + match caught case None => [] case Some(e) => CatchEvents(e)
      ensures escaped <==> caught == Some(Nullish)
      ensures releases == old(releases) && pendingResets == old(pendingResets)
      ensures search == old(search) && filtered == old(filtered) && nfcStarted == old(nfcStarted)
    {
      escaped := false;
      if caught.None? {
        return;
      }
      Perform(SetStatus(Some(Error)));
      match caught.value {
        case WithMessage(text) =>
          Perform(SetMessage(ErrorPrefix + text));
        case WithoutMessage =>
          Perform(SetMessage(ErrorPrefix + UnknownErrorText));
        case Nullish =>
          // Reading `e.message` throws: the message is left as it was.
          escaped := true;
      }
    }

    /** The finally block of `writeTag`: release the hardware and schedule the status reset. */
    method FinallyBlock(release: Settled)
      requires Valid()
      modifies this
      ensures Valid()
      ensures trace == old(trace) + [CancelTechnologyRequest(release), ScheduleStatusReset(ResetDelayMs)]
      ensures releases == old(releases) + 1 && pendingResets == old(pendingResets) + 1
      ensures View() == old(View())
      ensures search == old(search) && filtered == old(filtered) && nfcStarted == old(nfcStarted)
    {
      Perform(CancelTechnologyRequest(release));
      Perform(ScheduleStatusReset(ResetDelayMs));
    }

    /** The timer scheduled by `writeTag` fires: `setNfcStatus(null)`, which hides the modal and leaves the message. */
    method FireStatusReset()
      requires Valid()
      requires pendingResets > 0
      modifies this
      ensures Valid()
      ensures status == None && message == old(message) && !ModalVisible(View())
      ensures pendingResets == old(pendingResets) - 1
      ensures trace == old(trace) + [SetStatus(None)]
      ensures releases == old(releases)
      ensures search == old(search) && filtered == old(filtered) && nfcStarted == old(nfcStarted)
    {
      Perform(SetStatus(None));
    }
  }
}
