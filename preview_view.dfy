/**
 What a render of the preview shows, reduced to the decisions the markup
 makes: which buttons are disabled, whether the mixed-content banner, the
 overlay and the frame appear, and with what.
 */
module PreviewView {

  import opened Wrappers
  import opened UrlAnalyzer
  import opened PreviewState

  const NoPreviewLabel: string := "No preview URL"

  /** The placeholder over the frame area; which message it carries. */
  datatype Overlay = NoOverlay | NoPreviewUrl | PreviewFailed

  /** The embedded frame: its remount key and its address. */
  datatype Frame = Frame(key: nat, src: string)

  datatype View = View(
    copyDisabled: bool,
    copyLabel: string,
    openDisabled: bool,
    banner: bool,
    overlay: Overlay,
    frame: Option<Frame>)

  function Render(s: State, pageIsHttps: bool): (v: View)
    ensures v.copyDisabled <==> s.rawUrl == "" || s.copied
    ensures v.openDisabled <==> s.rawUrl == ""
    ensures v.overlay != NoOverlay <==> s.rawUrl == "" || s.loadingState == Failed
    ensures v.overlay == NoPreviewUrl <==> s.rawUrl == ""
    ensures v.frame.Some? <==> s.rawUrl != ""
    ensures v.frame.Some? ==> v.frame.value == Frame(s.fragmentKey, s.rawUrl)
    ensures v.banner <==> IsMixedContent(pageIsHttps, s.rawUrl)
    ensures v.copyLabel != "" && (s.rawUrl != "" ==> v.copyLabel == s.rawUrl)
  {
    View(
      copyDisabled := s.rawUrl == "" || s.copied,
      copyLabel := if s.rawUrl != "" then s.rawUrl else NoPreviewLabel,
      openDisabled := s.rawUrl == "",
      banner := IsMixedContent(pageIsHttps, s.rawUrl),
      overlay := if s.rawUrl == "" then NoPreviewUrl
                 else if s.loadingState == Failed then PreviewFailed
                 else NoOverlay,
      frame := if s.rawUrl != "" then Some(Frame(s.fragmentKey, SrcForIframe(s.rawUrl))) else None)
  }

  /**
   The pieces of a render agree with each other: the frame area is never
   left blank, the banner only accompanies a frame that can be opened, and
   copying is possible only when opening is.
   */
  lemma RenderIsConsistent(s: State, pageIsHttps: bool)
    ensures Render(s, pageIsHttps).frame.None? ==> Render(s, pageIsHttps).overlay == NoPreviewUrl
    ensures Render(s, pageIsHttps).banner ==>
              Render(s, pageIsHttps).frame.Some? && !Render(s, pageIsHttps).openDisabled
    ensures !Render(s, pageIsHttps).copyDisabled ==> !Render(s, pageIsHttps).openDisabled
    ensures Render(s, pageIsHttps).overlay == PreviewFailed ==> Render(s, pageIsHttps).frame.Some?
  {
  }

  /** Without an address: both buttons disabled, the placeholder label and message, no frame, no banner. */
  lemma EmptyUrlView(s: State, pageIsHttps: bool)
    requires s.rawUrl == ""
    ensures Render(s, pageIsHttps) == View(true, NoPreviewLabel, true, false, NoPreviewUrl, None)
  {
  }

  /**
   The stale remembered status has a visible consequence: after mount and a
   load in time, the failure overlay covers a frame that loaded.
   */
  lemma LoadedFrameCoveredByFailure(url: string, pageIsHttps: bool)
    requires url != ""
    ensures var v := Render(FireFailTimer(Advance(IframeLoad(Mount(url), 0), FailTimeoutMs), 0), pageIsHttps);
            v.overlay == PreviewFailed && v.frame == Some(Frame(0, url))
  {
    MountTimerOverridesLoad(url);
  }
}
