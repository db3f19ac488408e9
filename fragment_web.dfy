/**
 The `FragmentWeb` component as an object whose fields the event handlers,
 the effect and the timer callbacks update in place. Each method that
 changes the fields is proved to perform the transition of the same name
 in `PreviewState`; the constructor performs `PreviewState.Mount`.
 */
module FragmentWebComponent {

  import opened Wrappers
  import opened UrlAnalyzer
  import opened ActionDispatcher
  import opened PreviewState
  import opened PreviewView

  class FragmentWeb {
    var rawUrl: string
    var fragmentKey: nat
    var loadingState: LoadingState
    var copied: bool
    var failTimer: Option<FailTimer>
    var copyResets: seq<nat>
    var now: nat
    var nextTimerId: nat
    const pageIsHttps: bool

    /** The component's fields as one value. */
    function AsState(): State
      reads this
    {
      State(rawUrl, fragmentKey, loadingState, copied, failTimer, copyResets, now, nextTimerId)
    }

    ghost predicate Valid()
      reads this
    {
      PreviewState.Valid(AsState())
    }

    /** Mount with the fragment's address, followed by the first run of the load effect. */
    constructor (sandboxUrl: Option<string>, pageIsHttps: bool)
      ensures Valid()
      ensures AsState() == Mount(RawUrl(sandboxUrl))
      ensures this.pageIsHttps == pageIsHttps
    {
      rawUrl := RawUrl(sandboxUrl);
      fragmentKey := 0;
      loadingState := Idle;
      copied := false;
      failTimer := None;
      copyResets := [];
      now := 0;
      nextTimerId := 0;
      this.pageIsHttps := pageIsHttps;
      new;
      LoadEffect();
    }

    /** The load-detection effect: clean up the previous run, then start an attempt for a non-empty address. */
    method LoadEffect()
      modifies this
      ensures AsState() == PreviewState.LoadEffect(old(AsState()))
      ensures old(Valid()) ==> Valid()
    {
      if old(Valid()) {
        LoadEffectValid(old(AsState()));
      }
      failTimer := None;
      if SrcForIframe(rawUrl) == "" {
        return;
      }
      var snapshot := loadingState;
      loadingState := Loading;
      failTimer := Some(FailTimer(nextTimerId, now, snapshot));
      nextTimerId := nextTimerId + 1;
    }

    /** `onRefresh`. */
    method Refresh()
      requires Valid()
      modifies this
      ensures Valid()
      ensures AsState() == PreviewState.Refresh(old(AsState()))
      ensures fragmentKey == old(fragmentKey) + 1
    {
      fragmentKey := fragmentKey + 1;
      LoadEffect();
    }

    /** A re-render with a new `data.sandboxUrl`. */
    method ChangeUrl(sandboxUrl: Option<string>)
      requires Valid()
      modifies this
      ensures Valid()
      ensures AsState() == PreviewState.ChangeUrl(old(AsState()), sandboxUrl)
    {
      var url := RawUrl(sandboxUrl);
      if url != rawUrl {
        rawUrl := url;
        LoadEffect();
      }
    }

    /** Time passes for the pending timers. */
    method Advance(ms: nat)
      requires Valid()
      modifies this
      ensures Valid()
      ensures AsState() == PreviewState.Advance(old(AsState()), ms)
    {
      now := now + ms;
    }

    /** The event loop fires the failure timer `id`: a cleared or early timer does nothing. */
    method FireFailTimer(id: nat)
      requires Valid()
      modifies this
      ensures Valid()
      ensures AsState() == PreviewState.FireFailTimer(old(AsState()), id)
    {
      StepValid(AsState(), FailTimerFires(id));
      if failTimer.Some? && failTimer.value.id == id && failTimer.value.armedAt + FailTimeoutMs <= now {
        if failTimer.value.snapshot != Loaded {
          loadingState := Failed;
        }
        failTimer := None;
      }
    }

    /** `onLoad` of the frame mounted under `key`. */
    method IframeLoad(key: nat)
      requires Valid()
      modifies this
      ensures Valid()
      ensures AsState() == PreviewState.IframeLoad(old(AsState()), key)
    {
      if rawUrl != "" && key == fragmentKey {
        loadingState := Loaded;
      }
    }

    /** `onError` of the frame mounted under `key`. */
    method IframeError(key: nat)
      requires Valid()
      modifies this
      ensures Valid()
      ensures AsState() == PreviewState.IframeError(old(AsState()), key)
    {
      if rawUrl != "" && key == fragmentKey {
        loadingState := Failed;
      }
    }

    /** `handleCopy`, once the clipboard has answered `clipboardOk`. */
    method HandleCopy(clipboardOk: bool) returns (outcome: CopyOutcome)
      requires Valid()
      modifies this
      ensures Valid()
      ensures outcome == CopyOutcomeOf(old(rawUrl), clipboardOk)
      ensures AsState() == PreviewState.HandleCopy(old(AsState()), clipboardOk)
    {
      StepValid(AsState(), CopySettles(clipboardOk));
      if rawUrl == "" {
        return CopySkipped;
      }
      if !clipboardOk {
        return CopyRejected(CopyFailedLog, CopyFailedNotice);
      }
      copied := true;
      copyResets := copyResets + [now];
      outcome := CopyDone;
    }

    /** The oldest `setCopied(false)` timer fires once it is due. */
    method FireCopyReset()
      requires Valid()
      modifies this
      ensures Valid()
      ensures AsState() == PreviewState.FireCopyReset(old(AsState()))
    {
      StepValid(AsState(), CopyResetFires);
      if |copyResets| > 0 && copyResets[0] + CopyResetMs <= now {
        copied := false;
        copyResets := copyResets[1..];
      }
    }

    /** The open button: `openInNewTab(rawUrl)`. */
    method OpenPreview(popupOpened: bool, openerWritable: bool) returns (nav: Navigation)
      ensures nav == OpenInNewTab(rawUrl, popupOpened, openerWritable)
      ensures rawUrl == "" <==> nav == NoNavigation
      ensures rawUrl != "" ==> Target(nav) == Some(rawUrl)
      ensures nav.NewTab? <==> rawUrl != "" && popupOpened
      ensures nav.NewTab? ==> nav.openerCleared == openerWritable
    {
      nav := OpenInNewTab(rawUrl, popupOpened, openerWritable);
    }

    /** The banner's "Try HTTPS version" button. */
    method OpenHttpsVariant(popupOpened: bool, openerWritable: bool) returns (nav: Navigation)
      ensures nav == TryHttpsVersion(rawUrl, popupOpened, openerWritable)
      ensures IsHttpUrl(rawUrl) ==> Target(nav) == Some(HttpsPrefix + rawUrl[7..])
      ensures rawUrl != "" && !IsHttpUrl(rawUrl) ==> Target(nav) == Some(rawUrl)
      ensures rawUrl != "" ==> (nav.NewTab? <==> popupOpened)
      ensures rawUrl == "" <==> nav == NoNavigation
    {
      nav := TryHttpsVersion(rawUrl, popupOpened, openerWritable);
    }

    /** The banner's "Copy HTTPS URL" button. */
    method CopyHttpsVariant() returns (effect: Option<HttpsCopy>)
      ensures effect.None? <==> rawUrl == ""
      ensures effect.Some? ==> effect.value.written == HttpsVariant(rawUrl) && effect.value.notice == HttpsCopiedNotice
    {
      effect := CopyHttpsUrl(rawUrl);
    }

    /** The render of the current state. */
    method Render() returns (v: View)
      ensures v.copyDisabled <==> rawUrl == "" || copied
      ensures v.overlay != NoOverlay <==> rawUrl == "" || loadingState == Failed
      ensures v.banner <==> IsMixedContent(pageIsHttps, rawUrl)
      ensures v.frame.Some? <==> rawUrl != ""
      ensures v == PreviewView.Render(AsState(), pageIsHttps)
    {
      v := PreviewView.Render(AsState(), pageIsHttps);
    }
  }
}
