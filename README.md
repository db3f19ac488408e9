# FragmentWeb live preview, modelled in Dafny

This project models `FragmentWeb`, the component that shows a live preview
of a generated sandbox page inside a frame. The component has three parts:

- **URL analyser** (`url_analyzer.dfy`, module `UrlAnalyzer`). It derives
  facts from the preview address `rawUrl` and from whether the hosting page
  is served over HTTPS: `isHttpUrl`, `isMixedContent`, the suggested
  `httpsVariant`, and `srcForIframe`.
- **Embedding monitor** (`preview_state.dfy`, module `PreviewState`). It
  tracks the generation counter `fragmentKey`, the load status
  (idle / loading / loaded / failed), the one pending 6000 ms failure timer
  and the frame's load and error signals. The `copied` flag and its
  2000 ms resets live in the same state. Time is explicit: a clock in
  milliseconds, a "time passes" event, and timer callbacks that run only
  when the event loop fires a timer whose delay is up.
- **Action dispatcher** (`action_dispatcher.dfy`, module `ActionDispatcher`).
  It covers copying, opening in a new tab, and the mixed-content banner's
  two buttons. The browser's answers are boolean inputs: did the clipboard
  write succeed, did `window.open` return a window, could `opener` be
  cleared. The effects come back as values.

`preview_view.dfy` (module `PreviewView`) holds the render decisions: which
buttons are disabled, and whether the banner, the overlay and the frame
appear. `fragment_web.dfy` (module `FragmentWebComponent`) is the component
itself. It is a class whose fields the handlers, the effect and the timer
callbacks update in place. Each method that changes the fields is proved to
perform the `PreviewState` transition of the same name (`LoadEffect`,
`Refresh`, `ChangeUrl`, `Advance`, `FireFailTimer`, `IframeLoad`,
`IframeError`, `HandleCopy`, `FireCopyReset`), and the constructor performs
`Mount`. `PreviewState.Valid` is the invariant every event keeps. It says:

- the pending failure timer is the last one armed;
- the status is idle only while the address is empty;
- `copied` is never set without a pending reset.

Facts about the code that the model keeps as they are:

- The `http://` test (fragment-web.tsx:93) is case-sensitive. The
  case-insensitive `/i` regular expression (:99) runs only after it.
- `onLoad` and `onError` (:251, :253) overwrite any status, so loaded and
  failed are not terminal.
- No reset timer of the copied flag is ever cleared (:115). Resets
  accumulate, and the oldest one clears the flag.
- When the address becomes empty, the effect just returns (:142). The
  status is not set back to idle.
- The failure timer reads the status remembered when the effect ran (:146),
  not the current one (see Findings).

## Model

| member | source | states |
|---|---|---|
| `UrlAnalyzer.RawUrl` | src/modules/projects/ui/components/fragment-web.tsx:91 | a missing fragment or address gives the empty string, and otherwise the address itself |
| `UrlAnalyzer.StartsWith` | src/modules/projects/ui/components/fragment-web.tsx:93 | the character-by-character `startsWith` holds exactly when the prefix is a slice at the front of the string |
| `UrlAnalyzer.StartsWithIgnoringCase` | src/modules/projects/ui/components/fragment-web.tsx:99 | the `/i` match holds exactly when the string is at least as long as the pattern and agrees with it at every position after lower-casing ASCII letters |
| `UrlAnalyzer.ExactPrefixIgnoringCase` | src/modules/projects/ui/components/fragment-web.tsx:99 | an exact prefix also matches the `/i` regular expression, so the replacement fires after the exact test |
| `UrlAnalyzer.ReplaceLeadingHttp` | src/modules/projects/ui/components/fragment-web.tsx:99 | the anchored `/i` replacement: a string whose first seven characters, lower-cased, are `http://` (any letter case) becomes `https://` followed by the rest; any other string is unchanged |
| `UrlAnalyzer.IsHttpUrl` | src/modules/projects/ui/components/fragment-web.tsx:93 | true exactly when the first seven characters are `http://`, case-sensitively |
| `UrlAnalyzer.IsMixedContent` | src/modules/projects/ui/components/fragment-web.tsx:92-94 | true exactly when the page is HTTPS and the address begins with exactly `http://` |
| `UrlAnalyzer.MixedContentIsCaseSensitive` | src/modules/projects/ui/components/fragment-web.tsx:93-94 | `http://x` on HTTPS is flagged; `HTTP://x`, `Http://x`, `https://x`, the empty address and any address on a plain HTTP page are not |
| `UrlAnalyzer.HttpsVariant` | src/modules/projects/ui/components/fragment-web.tsx:97-101 | empty for an empty address; `https://` plus the remainder for an `http://` address; otherwise the address unchanged |
| `UrlAnalyzer.HttpsVariantIdempotent` | src/modules/projects/ui/components/fragment-web.tsx:97-101 | the suggestion never begins with `http://`, applying it twice equals applying it once, and it is empty exactly when the address is |
| `UrlAnalyzer.SrcForIframe` | src/modules/projects/ui/components/fragment-web.tsx:103-106 | the frame embeds the raw address, which differs from the suggestion whenever the address is `http://` |
| `UrlAnalyzer.UpperCaseSchemeKeptAsIs` | src/modules/projects/ui/components/fragment-web.tsx:99 | the regular expression alone would upgrade `HTTP://x`, but `httpsVariant` returns it unchanged |
| `ActionDispatcher.CopyOutcomeOf` | src/modules/projects/ui/components/fragment-web.tsx:110-121 | an empty address skips the write; success sets the flag; a rejection logs and alerts the fixed messages; exactly one of the three happens |
| `ActionDispatcher.OpenInNewTab` | src/modules/projects/ui/components/fragment-web.tsx:123-138 | exactly one outcome: nothing for an empty url; a new tab with `opener` cleared when that was allowed; or same-window navigation when the popup is blocked; every navigation targets `url` |
| `ActionDispatcher.TryHttpsVersion` | src/modules/projects/ui/components/fragment-web.tsx:196-206 | goes through `openInNewTab` with the suggestion (new tab iff the popup opened, else same window); the target is `https://` plus the remainder for an `http://` address, the address itself otherwise, never an `http://` target; nothing for an empty address |
| `ActionDispatcher.CopyHttpsUrl` | src/modules/projects/ui/components/fragment-web.tsx:207-218 | writes the suggestion and always alerts the same notice, whatever the write's result; nothing for an empty address |
| `PreviewState.Mount` | src/modules/projects/ui/components/fragment-web.tsx:86-150 | a mount holds the given address, starts at generation 0 with nothing copied; an empty address stays idle with no timer; any other address is loading with timer 0, which remembers `idle` |
| `PreviewState.FireFailTimer` | src/modules/projects/ui/components/fragment-web.tsx:145-147 | a timer that is not pending or not due changes nothing; a due timer is consumed and sets failed iff its remembered status was not loaded; nothing else changes |
| `PreviewState.IframeLoad` | src/modules/projects/ui/components/fragment-web.tsx:251 | the current frame's load sets loaded from any status; a signal with another key, or with no frame mounted, changes nothing |
| `PreviewState.IframeError` | src/modules/projects/ui/components/fragment-web.tsx:253 | the current frame's error sets failed from any status; other keys change nothing |
| `PreviewState.HandleCopy` | src/modules/projects/ui/components/fragment-web.tsx:110-121 | a successful copy sets the flag and adds one reset armed now; an empty address or a rejected write leaves the state unchanged |
| `PreviewState.FireCopyReset` | src/modules/projects/ui/components/fragment-web.tsx:115 | the oldest reset, once 2000 ms old, clears the flag and leaves; otherwise nothing changes |
| `PreviewState.LoadEffect` | src/modules/projects/ui/components/fragment-web.tsx:141-150 | the previous run's timer is cleared; an empty address changes nothing else; any other address becomes loading with one fresh timer that remembers the status of this render; the address, generation, copy state and clock are untouched |
| `PreviewState.LoadEffectValid` | src/modules/projects/ui/components/fragment-web.tsx:141-150 | running the effect keeps the invariant |
| `PreviewState.Refresh` | src/modules/projects/ui/components/fragment-web.tsx:108 | refresh adds exactly one to the generation and changes nothing else directly. With an address it sets loading and arms one new timer that remembers the prior status; without one it keeps the status and arms nothing |
| `PreviewState.RefreshSpec` | src/modules/projects/ui/components/fragment-web.tsx:108-150 | a refresh keeps the invariant, and the timer it replaced can no longer fire |
| `PreviewState.ChangeUrl` | src/modules/projects/ui/components/fragment-web.tsx:91 | the state holds the new address. An unchanged address does not re-run the effect; a new non-empty one starts a loading attempt; an empty one keeps the status. The generation, the copied flag, its resets and the clock are unchanged |
| `PreviewState.ChangeUrlSpec` | src/modules/projects/ui/components/fragment-web.tsx:141-150 | a change of address keeps the invariant; an empty address leaves no timer pending; when the effect re-runs, the previous timer can no longer fire |
| `PreviewState.ClearedTimerNeverFires` | src/modules/projects/ui/components/fragment-web.tsx:148 | a timer armed before the latest one has been cleared, and firing its id changes nothing |
| `PreviewState.FailTimerWaitsFullDelay` | src/modules/projects/ui/components/fragment-web.tsx:145-147 | the pending timer cannot act before 6000 ms have passed since it was armed |
| `PreviewState.EarlierGenerationSignalsIgnored` | src/modules/projects/ui/components/fragment-web.tsx:245 | load and error signals from a frame of an earlier generation change nothing |
| `PreviewState.CurrentSignalsOverwrite` | src/modules/projects/ui/components/fragment-web.tsx:251-253 | loaded and failed are not terminal: each signal of the current frame overwrites the other |
| `PreviewState.StepValid` | src/modules/projects/ui/components/fragment-web.tsx:86-253 | every event keeps the invariant: at most one pending failure timer, which is the last armed; idle only without an address; `copied` always has a pending reset; resets stay in arming order |
| `PreviewState.RunValid` | src/modules/projects/ui/components/fragment-web.tsx:86-253 | any sequence of events keeps the invariant |
| `PreviewState.GenerationCountsRefreshes` | src/modules/projects/ui/components/fragment-web.tsx:108 | after any sequence of events, the generation has grown by exactly the number of refreshes |
| `PreviewState.IdleUntilUrlPresented` | src/modules/projects/ui/components/fragment-web.tsx:88-143 | an idle preview stays idle through any events until a non-empty address is presented |
| `PreviewState.LoadBeforeTimeoutAfterRefresh` | src/modules/projects/ui/components/fragment-web.tsx:141-251 | refreshing from loaded, then a load of the new frame, then the timer firing, ends loaded with no timer pending |
| `PreviewState.SilentFrameFailsAfterTimeout` | src/modules/projects/ui/components/fragment-web.tsx:141-147 | with no signal, the mount's timer does nothing at 5999 ms, sets failed at 6000 ms, and cannot fire a second time |
| `PreviewState.LateSignalAfterRefresh` | src/modules/projects/ui/components/fragment-web.tsx:245 | after a refresh to generation 1, a late load from generation 0 leaves the new attempt loading |
| `PreviewState.CopyResetsAfterTwoSeconds` | src/modules/projects/ui/components/fragment-web.tsx:114-115 | a successful copy sets the flag at once; its reset does not clear it at 1999 ms and clears it at 2000 ms |
| `PreviewState.SecondCopyDoesNotRestartReset` | src/modules/projects/ui/components/fragment-web.tsx:115 | two overlapping writes that settle 1000 ms apart: the second does not restart the window; the flag clears 2000 ms after the first settled, and the second reset stays pending |
| `PreviewState.RejectedCopyKeepsState` | src/modules/projects/ui/components/fragment-web.tsx:116-120 | a rejected clipboard write leaves the whole state, `copied` included, unchanged |
| `PreviewState.MountTimerOverridesLoad` | src/modules/projects/ui/components/fragment-web.tsx:145-149 | as written: a frame that loads within 6000 ms of mount is still reported failed when the mount's timer fires |
| `PreviewState.RefreshFromLoadedNeverTimesOut` | src/modules/projects/ui/components/fragment-web.tsx:145-149 | as written: after a refresh from loaded, the timer fires without reporting a failure, and the status stays loading |
| `PreviewState.FireFailTimerIntended` | src/modules/projects/ui/components/fragment-web.tsx:144-147 | corrected callback: a due timer is consumed and sets failed iff the frame has not loaded by then; a loaded frame always stays loaded; nothing else changes |
| `PreviewState.IntendedTimerRespectsLoad` | src/modules/projects/ui/components/fragment-web.tsx:144-147 | with the corrected callback, a load in time after mount stays loaded, and a refresh from loaded that never loads is reported failed |
| `PreviewView.Render` | src/modules/projects/ui/components/fragment-web.tsx:166-249 | the copy button is disabled iff the address is empty or `copied`; open iff the address is empty; the overlay shows iff the address is empty or the status is failed; the frame shows iff there is an address, keyed by the generation; the banner shows iff mixed content |
| `PreviewView.RenderIsConsistent` | src/modules/projects/ui/components/fragment-web.tsx:166-243 | the frame area is never blank; the banner only shows beside an openable frame; copy enabled implies open enabled; the failure overlay covers a mounted frame |
| `PreviewView.EmptyUrlView` | src/modules/projects/ui/components/fragment-web.tsx:166-229 | with no address, both buttons are disabled, the label reads "No preview URL", and there is a no-preview overlay, no frame and no banner |
| `PreviewView.LoadedFrameCoveredByFailure` | src/modules/projects/ui/components/fragment-web.tsx:225-245 | as written: 6000 ms after mount, the failure overlay covers a frame that loaded in time |
| `FragmentWebComponent.FragmentWeb.constructor` | src/modules/projects/ui/components/fragment-web.tsx:85-150 | the new component is in the mount state and satisfies the invariant |
| `FragmentWebComponent.FragmentWeb.LoadEffect` | src/modules/projects/ui/components/fragment-web.tsx:141-150 | the fields become the effect's transition of their old values, and the invariant is kept |
| `FragmentWebComponent.FragmentWeb.Refresh` | src/modules/projects/ui/components/fragment-web.tsx:108 | performs the refresh transition, keeping the invariant; the key grows by one |
| `FragmentWebComponent.FragmentWeb.ChangeUrl` | src/modules/projects/ui/components/fragment-web.tsx:91 | performs the address-change transition, keeping the invariant |
| `FragmentWebComponent.FragmentWeb.Advance` | src/modules/projects/ui/components/fragment-web.tsx:145-147 | lets time pass for the pending timers, keeping the invariant |
| `FragmentWebComponent.FragmentWeb.FireFailTimer` | src/modules/projects/ui/components/fragment-web.tsx:145-147 | performs the failure-timer callback transition, keeping the invariant |
| `FragmentWebComponent.FragmentWeb.IframeLoad` | src/modules/projects/ui/components/fragment-web.tsx:251 | performs the load-signal transition, keeping the invariant |
| `FragmentWebComponent.FragmentWeb.IframeError` | src/modules/projects/ui/components/fragment-web.tsx:253 | performs the error-signal transition, keeping the invariant |
| `FragmentWebComponent.FragmentWeb.HandleCopy` | src/modules/projects/ui/components/fragment-web.tsx:110-121 | returns `handleCopy`'s outcome for the address and performs its state transition |
| `FragmentWebComponent.FragmentWeb.FireCopyReset` | src/modules/projects/ui/components/fragment-web.tsx:115 | performs the copy-reset transition, keeping the invariant |
| `FragmentWebComponent.FragmentWeb.OpenPreview` | src/modules/projects/ui/components/fragment-web.tsx:178-180 | the open button performs `openInNewTab` on the address: exactly the address, in a new tab iff the popup opened, with `opener` cleared whenever that was allowed, and nothing without an address |
| `FragmentWebComponent.FragmentWeb.OpenHttpsVariant` | src/modules/projects/ui/components/fragment-web.tsx:196-206 | "Try HTTPS version" performs `TryHttpsVersion`: `https://` plus the remainder of an `http://` address, the address itself otherwise, in a new tab iff the popup opened, nothing without an address |
| `FragmentWebComponent.FragmentWeb.CopyHttpsVariant` | src/modules/projects/ui/components/fragment-web.tsx:207-218 | "Copy HTTPS URL" writes the suggestion and alerts unconditionally |
| `FragmentWebComponent.FragmentWeb.Render` | src/modules/projects/ui/components/fragment-web.tsx:152-259 | the render gates the buttons, overlay, frame and banner by the current fields |

## Findings

| source | as written | input that shows it | evidently intended | confidence | as-written member | corrected member |
|---|---|---|---|---|---|---|
| src/modules/projects/ui/components/fragment-web.tsx:145-149 | the timer callback tests the `loadingState` captured when the effect ran, and the effect does not re-run when the status changes | mount with `http://x`, then the frame's `onLoad` at 1000 ms; at 6000 ms the status becomes failed and the failure overlay covers the loaded frame | report failure only if the frame has not loaded by the time the timer fires | high; not executed | `PreviewState.MountTimerOverridesLoad` | `PreviewState.FireFailTimerIntended` |

The same stale read has a second effect, shown by
`PreviewState.RefreshFromLoadedNeverTimesOut`: after a refresh from loaded,
a frame that never loads is never reported failed. `IntendedTimerRespectsLoad`
proves that the corrected callback gets both scenarios right. The component
model (`PreviewState.Step` and the class `FragmentWeb`) keeps the callback as
written, because the model describes what the component does.

## Left out

- Real time and `setTimeout`: delays are a millisecond clock plus explicit "time passes" and "timer fires" events. The event loop's guarantee that a timer fires no earlier than its delay is built into the firing functions.
- The asynchronous clipboard write in `handleCopy`: the address check, the write's answer and the flag update happen in one step. The model does not cover a new address arriving while a write is pending.
- The copy button's `disabled` gate (:166) is not applied to copy events: a `CopySettles` event stands for a clipboard write completing, not for a click. A write can only start while the button is enabled, so a second success inside the 2000 ms window means two writes overlapped (both started before the first one settled).
- `navigator.clipboard`, `window.open`, `window.location`, `alert` and `console.error`: their answers are boolean inputs and their effects are returned values (`CopyOutcome`, `Navigation`, `HttpsCopy`).
- The page's own protocol (`window.location.protocol === "https:"`, and whether `window` exists): this is the boolean `pageIsHttps`.
- Unmounting: the effect's cleanup also clears the timer on teardown, and pending copy resets outlive the component. The model has no teardown event.
- React's render and effect scheduling, batching and development-mode double effects: each event is one atomic transition followed by the effect when its dependencies changed.
- JSX layout, CSS classes, icons, `Hint`/`Button`, the frame's `sandbox` and `loading="lazy"` attributes and the message texts of the overlay: only the rendering decisions are modelled.
- The commented-out earlier component at the top of `fragment-web.tsx`: this is dead code.
- `project-view.tsx`, `client.tsx` and `page.tsx` are not part of this model. They are layout and data-fetching wiring with no logic of their own.
