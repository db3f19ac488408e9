/**
 The preview's state and its transitions: the attempt generation (the
 frame's `key`), the load status, the one pending failure timer, the
 "copied" flag with its pending resets, and the clock.

 Time is explicit: `now` counts milliseconds since mount, `Advance` lets it
 pass, and a timer callback runs only when the event loop fires it, which
 it does only once the timer's delay has elapsed.
 */
module PreviewState {

  import opened Wrappers
  import opened UrlAnalyzer
  import opened ActionDispatcher

  const FailTimeoutMs: nat := 6000
  const CopyResetMs: nat := 2000

  datatype LoadingState = Idle | Loading | Loaded | Failed

  /**
   The failure timer armed by one run of the load effect. `snapshot` is the
   `loadingState` of the render whose effect armed it: the callback reads
   that value, not the current one.
   */
  datatype FailTimer = FailTimer(id: nat, armedAt: nat, snapshot: LoadingState)

  datatype State = State(
    rawUrl: string,
    fragmentKey: nat,
    loadingState: LoadingState,
    copied: bool,
    failTimer: Option<FailTimer>,   // the effect's timer not yet cleared or fired
    copyResets: seq<nat>,           // arming times of the pending `setCopied(false)` timers, oldest first
    now: nat,
    nextTimerId: nat)

  /** What every reachable state satisfies. */
  ghost predicate Valid(s: State)
  {
    // a pending failure timer is the last one armed, for a non-empty address, in the past
    (s.failTimer.Some? ==>
       s.rawUrl != "" && s.failTimer.value.id + 1 == s.nextTimerId && s.failTimer.value.armedAt <= s.now) &&
    // the status is idle only while the address is empty
    (s.loadingState == Idle ==> s.rawUrl == "") &&
    // the flag never stays set without a reset on the way
    (s.copied ==> |s.copyResets| > 0) &&
    (forall i :: 0 <= i < |s.copyResets| ==> s.copyResets[i] <= s.now) &&
    (forall i, j :: 0 <= i < j < |s.copyResets| ==> s.copyResets[i] <= s.copyResets[j])
  }

  /**
   The load-detection effect, run whenever `fragmentKey` or `srcForIframe`
   changed: the previous run's cleanup clears its timer; an empty address
   returns at once; otherwise the status becomes loading and a timer is
   armed that remembers the status of this render.
   */
  function LoadEffect(s: State): (r: State)
    ensures s.rawUrl == "" ==> r == s.(failTimer := None)
    ensures s.rawUrl != "" ==>
              r.loadingState == Loading &&
              r.failTimer == Some(FailTimer(s.nextTimerId, s.now, s.loadingState)) &&
              r.nextTimerId == s.nextTimerId + 1
    ensures r.(loadingState := Idle, failTimer := None, nextTimerId := 0)
         == s.(loadingState := Idle, failTimer := None, nextTimerId := 0)
  {
    var cleared := s.(failTimer := None);
    if SrcForIframe(s.rawUrl) == "" then cleared
    else cleared.(loadingState := Loading,
                  failTimer := Some(FailTimer(s.nextTimerId, s.now, s.loadingState)),
                  nextTimerId := s.nextTimerId + 1)
  }

  /** First render and the first run of the effect. */
  function Mount(rawUrl: string): (r: State)
    ensures Valid(r)
    ensures r.rawUrl == rawUrl
    ensures r.fragmentKey == 0 && !r.copied && r.copyResets == [] && r.now == 0
    ensures rawUrl == "" ==> r.loadingState == Idle && r.failTimer.None?
    ensures rawUrl != "" ==> r.loadingState == Loading && r.failTimer == Some(FailTimer(0, 0, Idle))
  {
    LoadEffect(State(rawUrl, 0, Idle, false, None, [], 0, 0))
  }

  /** `onRefresh`: a new generation, which re-runs the effect. */
  function Refresh(s: State): (r: State)
    ensures r.fragmentKey == s.fragmentKey + 1
    ensures r.(fragmentKey := 0, loadingState := Idle, failTimer := None, nextTimerId := 0)
         == s.(fragmentKey := 0, loadingState := Idle, failTimer := None, nextTimerId := 0)
    ensures s.rawUrl != "" ==>
              r.loadingState == Loading && r.failTimer == Some(FailTimer(s.nextTimerId, s.now, s.loadingState))
    ensures s.rawUrl == "" ==> r.loadingState == s.loadingState && r.failTimer.None?
  {
    LoadEffect(s.(fragmentKey := s.fragmentKey + 1))
  }

  /** A new `data.sandboxUrl`; the effect re-runs only if the address is a different string. */
  function ChangeUrl(s: State, sandboxUrl: Option<string>): (r: State)
    ensures r.rawUrl == RawUrl(sandboxUrl)
    ensures r.(rawUrl := "", loadingState := Idle, failTimer := None, nextTimerId := 0)
         == s.(rawUrl := "", loadingState := Idle, failTimer := None, nextTimerId := 0)
    ensures RawUrl(sandboxUrl) == s.rawUrl ==> r == s
    ensures RawUrl(sandboxUrl) != s.rawUrl && RawUrl(sandboxUrl) != "" ==>
              r.loadingState == Loading && r.failTimer == Some(FailTimer(s.nextTimerId, s.now, s.loadingState))
    ensures RawUrl(sandboxUrl) == "" ==> r.loadingState == s.loadingState
    ensures RawUrl(sandboxUrl) != s.rawUrl && RawUrl(sandboxUrl) == "" ==> r.failTimer.None?
  {
    var url := RawUrl(sandboxUrl);
    if url == s.rawUrl then s else LoadEffect(s.(rawUrl := url))
  }

  function Advance(s: State, ms: nat): State
  {
    s.(now := s.now + ms)
  }

  /** The event loop may fire timer `id` now. */
  predicate FailTimerDue(s: State, id: nat)
  {
    s.failTimer.Some? && s.failTimer.value.id == id && s.failTimer.value.armedAt + FailTimeoutMs <= s.now
  }

  /** The failure timer's callback, `if (loadingState !== "loaded") setLoadingState("failed")`, with the remembered status. */
  function FireFailTimer(s: State, id: nat): (r: State)
    ensures !FailTimerDue(s, id) ==> r == s
    ensures FailTimerDue(s, id) ==> r.failTimer.None?
    ensures FailTimerDue(s, id) && s.failTimer.value.snapshot != Loaded ==> r.loadingState == Failed
    ensures FailTimerDue(s, id) && s.failTimer.value.snapshot == Loaded ==> r.loadingState == s.loadingState
    ensures r.(failTimer := None, loadingState := Idle) == s.(failTimer := None, loadingState := Idle)
  {
    if FailTimerDue(s, id) then
      var t := s.failTimer.value;
      s.(failTimer := None, loadingState := if t.snapshot != Loaded then Failed else s.loadingState)
    else s
  }

  /** `onLoad` of the frame mounted under `key`; a frame exists only for a non-empty address. */
  function IframeLoad(s: State, key: nat): (r: State)
    ensures key == s.fragmentKey && s.rawUrl != "" ==> r.loadingState == Loaded
    ensures key != s.fragmentKey || s.rawUrl == "" ==> r == s
    ensures r.(loadingState := Idle) == s.(loadingState := Idle)
  {
    if s.rawUrl != "" && key == s.fragmentKey then s.(loadingState := Loaded) else s
  }

  /** `onError` of the frame mounted under `key`. */
  function IframeError(s: State, key: nat): (r: State)
    ensures key == s.fragmentKey && s.rawUrl != "" ==> r.loadingState == Failed
    ensures key != s.fragmentKey || s.rawUrl == "" ==> r == s
    ensures r.(loadingState := Idle) == s.(loadingState := Idle)
  {
    if s.rawUrl != "" && key == s.fragmentKey then s.(loadingState := Failed) else s
  }

  /** `handleCopy` once the clipboard has answered: on success set the flag and schedule its reset. */
  function HandleCopy(s: State, clipboardOk: bool): (r: State)
    ensures CopyOutcomeOf(s.rawUrl, clipboardOk) == CopyDone ==>
              r == s.(copied := true, copyResets := s.copyResets + [s.now])
    ensures CopyOutcomeOf(s.rawUrl, clipboardOk) != CopyDone ==> r == s
  {
    match CopyOutcomeOf(s.rawUrl, clipboardOk)
    case CopyDone => s.(copied := true, copyResets := s.copyResets + [s.now])
    case _ => s
  }

  /** The oldest reset timer fires once 2000 ms have passed since it was armed. */
  predicate CopyResetDue(s: State)
  {
    |s.copyResets| > 0 && s.copyResets[0] + CopyResetMs <= s.now
  }

  function FireCopyReset(s: State): (r: State)
    ensures CopyResetDue(s) ==> !r.copied && r.copyResets == s.copyResets[1..]
    ensures !CopyResetDue(s) ==> r == s
    ensures r.(copied := false, copyResets := []) == s.(copied := false, copyResets := [])
  {
    if CopyResetDue(s) then s.(copied := false, copyResets := s.copyResets[1..]) else s
  }

  /** Everything that can happen to the preview. */
  datatype Event =
    | RefreshClick
    | NewSandboxUrl(sandboxUrl: Option<string>)
    | TimePasses(ms: nat)
    | FailTimerFires(id: nat)
    | FrameLoaded(key: nat)
    | FrameErrored(key: nat)
    | CopySettles(clipboardOk: bool)   // a clipboard write started by `handleCopy` answers
    | CopyResetFires

  function Step(s: State, e: Event): State
  {
    match e
    case RefreshClick => Refresh(s)
    case NewSandboxUrl(u) => ChangeUrl(s, u)
    case TimePasses(ms) => Advance(s, ms)
    case FailTimerFires(id) => FireFailTimer(s, id)
    case FrameLoaded(k) => IframeLoad(s, k)
    case FrameErrored(k) => IframeError(s, k)
    case CopySettles(ok) => HandleCopy(s, ok)
    case CopyResetFires => FireCopyReset(s)
  }

  function Run(s: State, es: seq<Event>): State
    decreases |es|
  {
    if es == [] then s else Run(Step(s, es[0]), es[1..])
  }

  // ---------------------------------------------------------------------------
  // Properties of single transitions

  /** Every run of the effect keeps the invariant. */
  lemma LoadEffectValid(s: State)
    requires Valid(s)
    ensures Valid(LoadEffect(s))
  {
  }

  /** A refresh keeps the invariant, and the timer it replaced, if any, can no longer fire. */
  lemma RefreshSpec(s: State)
    requires Valid(s)
    ensures Valid(Refresh(s))
    ensures s.failTimer.Some? ==> FireFailTimer(Refresh(s), s.failTimer.value.id) == Refresh(s)
  {
  }

  /** A change of address keeps the invariant; when it re-runs the effect, the previous timer can no longer fire. */
  lemma ChangeUrlSpec(s: State, sandboxUrl: Option<string>)
    requires Valid(s)
    ensures Valid(ChangeUrl(s, sandboxUrl))
    ensures RawUrl(sandboxUrl) == "" ==> ChangeUrl(s, sandboxUrl).failTimer.None?
    ensures RawUrl(sandboxUrl) != s.rawUrl && s.failTimer.Some? ==>
              FireFailTimer(ChangeUrl(s, sandboxUrl), s.failTimer.value.id) == ChangeUrl(s, sandboxUrl)
  {
  }

  /** Only the most recently armed timer can fire; every earlier one was cleared. */
  lemma ClearedTimerNeverFires(s: State, id: nat)
    requires Valid(s)
    requires id + 1 < s.nextTimerId
    ensures FireFailTimer(s, id) == s
  {
  }

  /** A timer cannot fire before its 6000 ms are up. */
  lemma FailTimerWaitsFullDelay(s: State, id: nat)
    requires s.failTimer.Some? && s.failTimer.value.id == id
    requires s.now < s.failTimer.value.armedAt + FailTimeoutMs
    ensures FireFailTimer(s, id) == s
  {
  }

  /** A frame signal from an earlier generation changes nothing: that frame was remounted. */
  lemma EarlierGenerationSignalsIgnored(s: State, key: nat)
    requires key < s.fragmentKey
    ensures IframeLoad(s, key) == s && IframeError(s, key) == s
  {
  }

  /** The current frame's signals overwrite any status, including loaded and failed. */
  lemma CurrentSignalsOverwrite(s: State)
    requires s.rawUrl != ""
    ensures IframeLoad(IframeError(s, s.fragmentKey), s.fragmentKey).loadingState == Loaded
    ensures IframeError(IframeLoad(s, s.fragmentKey), s.fragmentKey).loadingState == Failed
  {
  }

  /** Every event keeps the invariant. */
  lemma StepValid(s: State, e: Event)
    requires Valid(s)
    ensures Valid(Step(s, e))
  {
    match e
    case RefreshClick => RefreshSpec(s);
    case NewSandboxUrl(u) => ChangeUrlSpec(s, u);
    case CopySettles(ok) =>
      var r := HandleCopy(s, ok);
      if r != s {
        assert r.copyResets == s.copyResets + [s.now];
        forall i, j | 0 <= i < j < |r.copyResets|
          ensures r.copyResets[i] <= r.copyResets[j]
        {
          if j == |s.copyResets| {
            assert r.copyResets[i] == s.copyResets[i];
          }
        }
      }
    case CopyResetFires =>
      var r := FireCopyReset(s);
      if CopyResetDue(s) {
        forall i, j | 0 <= i < j < |r.copyResets|
          ensures r.copyResets[i] <= r.copyResets[j]
        {
          assert r.copyResets[i] == s.copyResets[i + 1];
          assert r.copyResets[j] == s.copyResets[j + 1];
        }
      }
    case _ =>
  }

  // ---------------------------------------------------------------------------
  // Properties of runs

  /** Every sequence of events keeps the invariant. */
  lemma {:induction false} RunValid(s: State, es: seq<Event>)
    requires Valid(s)
    ensures Valid(Run(s, es))
    decreases |es|
  {
    if es != [] {
      StepValid(s, es[0]);
      RunValid(Step(s, es[0]), es[1..]);
    }
  }

  function Refreshes(es: seq<Event>): nat
    decreases |es|
  {
    if es == [] then 0 else (if es[0] == RefreshClick then 1 else 0) + Refreshes(es[1..])
  }

  /** The generation counts the refreshes and nothing else. */
  lemma {:induction false} GenerationCountsRefreshes(s: State, es: seq<Event>)
    ensures Run(s, es).fragmentKey == s.fragmentKey + Refreshes(es)
    decreases |es|
  {
    if es != [] {
      GenerationCountsRefreshes(Step(s, es[0]), es[1..]);
    }
  }

  predicate PresentsUrl(e: Event)
  {
    e.NewSandboxUrl? && RawUrl(e.sandboxUrl) != ""
  }

  /** Without an address the status stays idle until a non-empty address is presented. */
  lemma {:induction false} IdleUntilUrlPresented(s: State, es: seq<Event>)
    requires Valid(s) && s.loadingState == Idle
    requires forall i :: 0 <= i < |es| ==> !PresentsUrl(es[i])
    ensures Run(s, es).loadingState == Idle
    decreases |es|
  {
    if es != [] {
      StepValid(s, es[0]);
      assert !PresentsUrl(es[0]);
      assert Step(s, es[0]).loadingState == Idle;
      IdleUntilUrlPresented(Step(s, es[0]), es[1..]);
    }
  }

  // ---------------------------------------------------------------------------
  // Scenarios

  /** A load before the timer fires is kept when the attempt began from loaded, and the late timer is a no-op. */
  lemma LoadBeforeTimeoutAfterRefresh(s: State)
    requires Valid(s) && s.rawUrl != "" && s.loadingState == Loaded
    ensures var r := Run(Refresh(s), [FrameLoaded(s.fragmentKey + 1), TimePasses(FailTimeoutMs), FailTimerFires(s.nextTimerId)]);
            r.loadingState == Loaded && r.failTimer.None?
  {
    var s1 := Refresh(s);
    var s2 := IframeLoad(s1, s.fragmentKey + 1);
    var s3 := Advance(s2, FailTimeoutMs);
    assert FailTimerDue(s3, s.nextTimerId);
    var es := [FrameLoaded(s.fragmentKey + 1), TimePasses(FailTimeoutMs), FailTimerFires(s.nextTimerId)];
    assert Run(s1, es) == Run(s2, es[1..]);
    assert Run(s2, es[1..]) == Run(s3, es[2..]);
    assert Run(s3, es[2..]) == Run(FireFailTimer(s3, s.nextTimerId), []);
  }

  /** With no signal at all, the timer reports a failure once, 6000 ms after mount. */
  lemma SilentFrameFailsAfterTimeout(url: string)
    requires url != ""
    ensures FireFailTimer(Advance(Mount(url), FailTimeoutMs - 1), 0) == Advance(Mount(url), FailTimeoutMs - 1)
    ensures var r := FireFailTimer(Advance(Mount(url), FailTimeoutMs), 0);
            r.loadingState == Failed && r.failTimer.None? && FireFailTimer(r, 0) == r
  {
  }

  /** A late load signal from generation 0 does not touch generation 1. */
  lemma LateSignalAfterRefresh(url: string)
    requires url != ""
    ensures var s := Refresh(Mount(url));
            IframeLoad(s, 0) == s && s.loadingState == Loading && s.fragmentKey == 1
  {
  }

  /** A successful copy sets the flag at once, and its reset clears it 2000 ms later and not earlier. */
  lemma CopyResetsAfterTwoSeconds(s: State)
    requires Valid(s) && s.rawUrl != "" && s.copyResets == []
    ensures HandleCopy(s, true).copied
    ensures FireCopyReset(Advance(HandleCopy(s, true), CopyResetMs - 1)).copied
    ensures !FireCopyReset(Advance(HandleCopy(s, true), CopyResetMs)).copied
    ensures FireCopyReset(Advance(HandleCopy(s, true), CopyResetMs)).copyResets == []
  {
  }

  /**
   Two overlapping writes (both started while the button was still
   enabled) that settle 1000 ms apart: the second does not restart the
   window. The first reset still clears the flag 2000 ms after the first
   write settled, and the second reset stays pending.
   */
  lemma SecondCopyDoesNotRestartReset(s: State)
    requires Valid(s) && s.rawUrl != "" && s.copyResets == []
    ensures var r := Run(s, [CopySettles(true), TimePasses(1000), CopySettles(true), TimePasses(1000), CopyResetFires]);
            !r.copied && r.copyResets == [s.now + 1000]
  {
  }

  /** A rejected copy changes no state. */
  lemma RejectedCopyKeepsState(s: State)
    ensures HandleCopy(s, false) == s
  {
  }

  // ---------------------------------------------------------------------------
  // The remembered status in the failure timer

  /**
   As written: the mount's timer remembers `idle`, so a frame that loaded
   within the 6000 ms is reported failed when the timer fires.
   */
  lemma MountTimerOverridesLoad(url: string)
    requires url != ""
    ensures var loaded := IframeLoad(Mount(url), 0);
            loaded.loadingState == Loaded &&
            FireFailTimer(Advance(loaded, FailTimeoutMs), 0).loadingState == Failed
  {
  }

  /**
   As written: after a refresh from `loaded` the timer remembers `loaded`,
   so a frame that never loads stays `loading` and no failure is shown.
   */
  lemma RefreshFromLoadedNeverTimesOut(s: State)
    requires Valid(s) && s.rawUrl != "" && s.loadingState == Loaded
    ensures var r := FireFailTimer(Advance(Refresh(s), FailTimeoutMs), s.nextTimerId);
            r.loadingState == Loading && r.failTimer.None?
  {
  }

  /**
   The evidently intended callback: report a failure if the frame has not
   loaded by the time the timer fires, judged on the current status.
   */
  function FireFailTimerIntended(s: State, id: nat): (r: State)
    ensures !FailTimerDue(s, id) ==> r == s
    ensures FailTimerDue(s, id) ==> r.failTimer.None?
    ensures s.loadingState == Loaded ==> r.loadingState == Loaded
    ensures FailTimerDue(s, id) && s.loadingState != Loaded ==> r.loadingState == Failed
    ensures r.(failTimer := None, loadingState := Idle) == s.(failTimer := None, loadingState := Idle)
  {
    if FailTimerDue(s, id) then
      s.(failTimer := None, loadingState := if s.loadingState != Loaded then Failed else s.loadingState)
    else s
  }

  /** With the intended callback both scenarios above come out right. */
  lemma IntendedTimerRespectsLoad(url: string, s: State)
    requires url != ""
    requires Valid(s) && s.rawUrl != "" && s.loadingState == Loaded
    ensures FireFailTimerIntended(Advance(IframeLoad(Mount(url), 0), FailTimeoutMs), 0).loadingState == Loaded
    ensures FireFailTimerIntended(Advance(Refresh(s), FailTimeoutMs), s.nextTimerId).loadingState == Failed
  {
  }
}
