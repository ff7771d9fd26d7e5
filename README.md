# NFC story tags: a Dafny model of the story list screen

The program is a single React Native screen, `app/index.tsx`. It lists a bundled
catalog of stories (id, title, language), each with a flag for its language,
and filters the list by a search box. Tapping a story writes its tag text,
`"02190530" + id + "00"`, to an NFC tag, while a modal shows the progress.

This project models the logic under that screen and proves what it does:

- `TagPayload` covers the tag text built for a story id (line 31).
- `CatalogSearch` covers the case-insensitive title search that picks the shown list out of the whole catalog (lines 21-28).
- `LanguageFlags` covers the language-to-flag table and its white-flag fallback (lines 58-64 and 75).
- `WriteFlow` covers `writeTag` (lines 30-56) as a pure specification:
  - It lists every observable effect of one call, in order: each `setNfcStatus`/`setNfcMessage` call, each call into the NFC library and the scheduling of the status reset.
  - The screen state is whatever those effects leave when they are replayed in order.
  - The hardware results are inputs: how `requestTechnology` settles, what the NDEF encoder returns, how `writeNdefMessage` settles and how `cancelTechnologyRequest` settles.
- `StoryApp.App` is the component's state as a class. Its fields `search` and `filtered` are the state variables of the same names. The field `status` stands for `nfcStatus` and `message` for `nfcMessage`. The class also keeps a release counter, the number of pending status resets and a ghost log of effects.
  - Its methods are the mount effect, the search effect, `writeTag` (with its try, catch and finally blocks) and the firing of the reset timer.
  - Each method is proved against the `WriteFlow` and `CatalogSearch` functions.
  - The invariant `Valid()` says the modal's state is always the replay of the logged effects. It also says every release and every scheduled reset is counted.

Points where the code is followed exactly:

- `if (!bytes)` throws only when the encoder returns null or undefined. An empty JavaScript array is truthy, so an empty byte array is still written. The encoder's result is therefore `Option<seq<byte>>`, with `None` standing for null.
- `e.message ?? 'Unknown error'` keeps an empty message string and uses "Unknown error" only when the message is null or undefined. A thrown primitive also has no `message`.
- When the thrown value is itself null or undefined, reading `e.message` throws inside the catch block. In that case:
  - the status has already been set to `'error'`;
  - the message is not updated;
  - the finally block still releases the hardware and schedules the reset;
  - the returned promise rejects.
  
  `Thrown.Nullish` models this case, and `WriteTag` reports the rejection in `escaped`.
- The timer clears only `nfcStatus`, not `nfcMessage`.
- Every call schedules its own timer, so pending resets are counted, not just flagged.

The code has none of the following, and the model adds none:

- The code has no guard against a second write while one is running.
- It has no user cancellation.
- It treats no encoder result other than null or undefined as an invalid payload.
- Its reset after 2000 ms sets only the status back to null, not the message.
- It checks nothing about the id: any id string is framed, not only four-digit ids.

## Model

| member | source | states |
|---|---|---|
| TagPayload.TagCode | app/index.tsx:31 | the tag text is 10 characters longer than the id, starts with "02190530", ends with "00", and stripping that frame gives the id back |
| TagPayload.TagCodeInjective | app/index.tsx:31 | two ids with the same tag text are the same id |
| TagPayload.FramedIsTagCode | app/index.tsx:31 | every text in the frame is the tag text of the id it frames |
| TagPayload.TagCodeExample | app/index.tsx:31 | the tag text of id "0007" is the 14 characters "02190530000700" |
| CatalogSearch.Lower | app/index.tsx:22-25 | lower-casing keeps the length and lower-cases each ASCII letter in place |
| CatalogSearch.Includes | app/index.tsx:25 | `includes` holds exactly when the term occurs at some position of the title; the empty term occurs in every title |
| CatalogSearch.Matches | app/index.tsx:25 | a story matches exactly when the term occurs at some position of its lower-cased title |
| CatalogSearch.Keep | app/index.tsx:24-26 | the kept stories are exactly the stories of the input that match, and there are no more of them than in the input |
| CatalogSearch.FilterStories | app/index.tsx:22-27 | the shown list holds exactly the catalog stories whose lower-cased title contains the lower-cased search, and it is a subsequence of the catalog |
| CatalogSearch.FilterSound | app/index.tsx:21-28 | every story shown is in the catalog, and its lower-cased title contains the lower-cased search text |
| CatalogSearch.FilterComplete | app/index.tsx:21-28 | every catalog story whose lower-cased title contains the lower-cased search text is shown |
| CatalogSearch.FilterMultiplicity | app/index.tsx:21-28 | a matching story is shown as many times as it occurs in the catalog; a story that does not match is never shown |
| CatalogSearch.FilterPreservesOrder | app/index.tsx:24-26 | the shown list is a subsequence of the whole catalog, in catalog order |
| CatalogSearch.FilterEmptySearch | app/index.tsx:18-28 | an empty search shows the whole catalog |
| CatalogSearch.FilterIgnoresCase | app/index.tsx:22 | the search text's case does not change the result |
| CatalogSearch.FilterIdempotent | app/index.tsx:21-28 | filtering the shown list again with the same search changes nothing |
| LanguageFlags.FlagFor | app/index.tsx:75 | the white flag is shown exactly for a language outside the table; every other flag shown is one of the table's flags |
| LanguageFlags.FlagTable | app/index.tsx:58-75 | Italian, English, French, German and Spanish get their flags; any other language gets the white flag |
| LanguageFlags.FlagIdentifiesLanguage | app/index.tsx:58-64 | the five flags are distinct and none is the white flag, so a non-white flag names exactly one language |
| WriteFlow.Caught | app/index.tsx:36-49 | nothing reaches the catch block exactly when the request, the encoding and the write all succeed; a rejected request passes its own reason on; a null encoder result throws "Invalid NDEF message"; after a successful request and encoding, a rejected write passes its own reason on |
| WriteFlow.TryEvents | app/index.tsx:36-48 | the try block's effects start with the technology request; a rejected request ends them there; otherwise 'writing' and "Writing to tag..." follow at once |
| WriteFlow.CatchEvents | app/index.tsx:49-51 | the catch block first sets 'error', then "❌ Error writing to tag: " with the error's message or "Unknown error"; for a null or undefined thrown value it sets only 'error' |
| WriteFlow.WriteTagEvents | app/index.tsx:30-56 | a call's effects begin with 'waiting', the "Hold an NFC tag…" message and the technology request, and end with the release and the 2000 ms reset |
| WriteFlow.ReplayConcrete | app/index.tsx:33-51 | the modal's final status and message on each path: success, an error with the error's message, "Unknown error", or the last message set when the thrown value is null |
| WriteFlow.WriteTagOutcome | app/index.tsx:36-51 | the final status is 'success' exactly when the request, the encoding and the write all succeed, and 'error' otherwise |
| WriteFlow.WriteTagErrorMessage | app/index.tsx:49-51 | on failure the message is "❌ Error writing to tag: " followed by the error's message, or by "Unknown error" when it has none |
| WriteFlow.InvalidNdefSkipsWrite | app/index.tsx:42-51 | when the encoder returns null, the flow ends in 'error' with "Invalid NDEF message", and nothing is written |
| WriteFlow.WaitingBeforeHardware | app/index.tsx:33-37 | 'waiting' and "Hold an NFC tag near your device" are set before the first hardware call, which is the technology request |
| WriteFlow.WritingOnlyAfterAcquire | app/index.tsx:37-40 | 'writing' is set if and only if the technology request succeeds, and right after it |
| WriteFlow.WriteAttemptedIff | app/index.tsx:42-45 | the tag is written with some bytes exactly when the request succeeded and the encoder returned those bytes |
| WriteFlow.ReleaseAndResetOnce | app/index.tsx:52-54 | on every path there is exactly one release and exactly one 2000 ms status reset, and they are the last two effects |
| WriteFlow.ReleaseOutcomeIgnored | app/index.tsx:53 | a failing release leaves the same status and message as a successful one |
| WriteFlow.ModalShownThroughout | app/index.tsx:33-54 | after each effect of the flow, from the first one on, the status is non-null, so the modal (visible exactly when the status is non-null, line 95) is shown |
| WriteFlow.SpinnerOnlyAfterAcquire | app/index.tsx:37-48 | the spinner (shown exactly when the status is 'writing', line 98) appears only after a successful technology request, and it is gone when the flow ends |
| StoryApp.App.constructor | app/index.tsx:11-14 | the initial state: empty search, empty list, null status, empty message, nothing logged |
| StoryApp.App.Mount | app/index.tsx:16-28 | mounting starts the NFC manager and shows the catalog filtered by the current search, which is the whole catalog when the search is empty |
| StoryApp.App.OnSearchChange | app/index.tsx:21-28 | the shown list becomes the filter of the whole catalog by the new text, whatever was shown before; nothing else changes |
| StoryApp.App.ApplySearch | app/index.tsx:21-28 | the shown list becomes the filter of the whole catalog by the current search |
| StoryApp.App.Perform | app/index.tsx:33-54 | one effect is logged and applied: a setter changes its state variable, a release adds one to the release count, a scheduled reset adds a pending reset, a fired reset removes one, and the invariant is kept |
| StoryApp.App.WriteTag | app/index.tsx:30-56 | the effects logged are those of the flow for the tag text of `id`; the modal ends where they lead; exactly one release and one pending reset are added; the call rejects exactly when the thrown value is null or undefined |
| StoryApp.App.TryBlock | app/index.tsx:36-48 | the try block's effects up to the failing step, and the value that reaches the catch block |
| StoryApp.App.CatchBlock | app/index.tsx:49-51 | the catch block sets 'error' and the error message, or only 'error' when reading the message throws |
| StoryApp.App.FinallyBlock | app/index.tsx:52-55 | the finally block releases the hardware once, schedules one reset and leaves the modal unchanged |
| StoryApp.App.FireStatusReset | app/index.tsx:54 | a pending reset fires: the status becomes null, which hides the modal, and the message stays |

## Left out

- Rendering, layout and the style sheet (lines 66-169) are presentation only. The model keeps only what the modal shows (lines 95-99), as `ModalVisible` and `SpinnerShown`.
- `NfcManager.start`, `requestTechnology`, `writeNdefMessage` and `cancelTechnologyRequest` are calls into a hardware library. The model records that each call happened and takes how it settles as an input.
- `Ndef.textRecord` and `Ndef.encodeMessage` are an opaque encoder. The model takes it as a function from the tag text to bytes or null. The possibility that the encoder throws is not modelled.
- Real timers and React's batching of state updates are not modelled. Each setter takes effect at once, in program order. A timer firing is the separate `FireStatusReset` step, enabled while a reset is pending.
- A hardware promise that never settles is not modelled: `Settled` is only resolved or rejected, so every modelled call returns. The awaits on lines 37 and 45 have no timeout and the screen has no cancel. If `requestTechnology` or `writeNdefMessage` never settles (for instance, no tag is ever presented), the modal stays at 'waiting' or 'writing' for good, `cancelTechnologyRequest` is never called and no reset is scheduled.
- WriteFlow.ReleaseAndResetOnce: "one release and one reset on every path" covers only calls whose hardware promises settle.
- StoryApp.App.WriteTag: returns only because every hardware promise is taken to settle; a call whose promise never settles does not return.
- Overlapping `writeTag` calls are not modelled: the code has no guard, and another call's timer can fire between its awaits. Each call is one uninterrupted step. Between calls, any pending reset may fire, and it clears whatever status is current.
- WriteFlow.ModalShownThroughout: says the modal is visible after each effect of one call. A reset scheduled by an earlier call can fire during the await on line 37 or line 45 and hide the modal between two effects; that interleaving is not modelled.
- Loading the bundled catalog file (line 8) is left out. The catalog is the constructor's argument.
- CatalogSearch.Lower: folds only the ASCII letters A-Z. JavaScript's full Unicode `toLowerCase` mappings are not modelled.
- LanguageFlags.FlagFor: its contract says the white flag is shown exactly for a language outside the five-entry table. In JavaScript, a language value naming an inherited object property, such as "constructor" or "toString", finds that property instead, so no white flag is shown for it; the model treats `languageFlags` as a plain map.
- LanguageFlags.FlagTable: treats `languageFlags` as a plain five-entry map. A language value naming an inherited object property, such as "constructor", would find that property rather than fall back to the white flag; that is not modelled.
- StoryApp.App.WriteTag: when the thrown value is null or undefined, the call's rejection is reported only as `escaped`. What the runtime does with the unhandled rejection is not modelled.
- The program has no code for reading tags, decoding tag text, background scanning, looking a story up by id, or highlighting a matched story, so none of these is modelled.
