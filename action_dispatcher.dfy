/**
 The action dispatcher's decisions: what copying and opening do, given the
 browser's answers (did the clipboard write succeed, did `window.open`
 return a window, could its `opener` be cleared). The effects are returned
 as values instead of being performed.
 */
module ActionDispatcher {

  import opened Wrappers
  import opened UrlAnalyzer

  const CopyFailedLog: string := "Clipboard write failed"
  const CopyFailedNotice: string := "Copy failed \U{2014} try selecting and copying manually."
  const HttpsCopiedNotice: string := "HTTPS variant copied to clipboard. Try opening it directly in a new tab to verify TLS."

  /** What `handleCopy` ends in. */
  datatype CopyOutcome =
    | CopySkipped                                  // empty address: returns before writing
    | CopyDone                                     // written; `copied` is set and its reset scheduled
    | CopyRejected(log: string, notice: string)    // write rejected: logged and alerted, `copied` untouched

  /** `handleCopy`'s decision for the address and the clipboard's answer. */
  function CopyOutcomeOf(rawUrl: string, clipboardOk: bool): (r: CopyOutcome)
    ensures r == CopySkipped <==> rawUrl == ""
    ensures r == CopyDone <==> rawUrl != "" && clipboardOk
    ensures r.CopyRejected? <==> rawUrl != "" && !clipboardOk
    ensures r.CopyRejected? ==> r.notice == CopyFailedNotice && r.log == CopyFailedLog
  {
    if rawUrl == "" then CopySkipped
    else if clipboardOk then CopyDone
    else CopyRejected(CopyFailedLog, CopyFailedNotice)
  }

  /** A navigation requested by `openInNewTab`. */
  datatype Navigation =
    | NoNavigation
    | NewTab(target: string, openerCleared: bool)  // `window.open("", "_blank")`, then `w.location.href = target`
    | SameWindow(target: string)                   // popup blocked: `window.location.href = target`

  /** Where a navigation leads, if anywhere. */
  function Target(nav: Navigation): Option<string>
  {
    match nav
    case NoNavigation => None
    case NewTab(t, _) => Some(t)
    case SameWindow(t) => Some(t)
  }

  /**
   `openInNewTab(url)`: `popupOpened` is whether `window.open` returned a
   window and `openerWritable` whether assigning `w.opener = null` was
   allowed (a refusal is caught and ignored).
   */
  function OpenInNewTab(url: string, popupOpened: bool, openerWritable: bool): (r: Navigation)
    ensures url == "" <==> r == NoNavigation
    ensures url != "" ==> Target(r) == Some(url)
    ensures r.NewTab? <==> url != "" && popupOpened
    ensures r.SameWindow? <==> url != "" && !popupOpened
    ensures r.NewTab? ==> r.openerCleared == openerWritable
  {
    if url == "" then NoNavigation
    else if popupOpened then NewTab(url, openerWritable)
    else SameWindow(url)
  }

  /** The "Try HTTPS version" button: opens the suggested secure address, if there is one. */
  function TryHttpsVersion(rawUrl: string, popupOpened: bool, openerWritable: bool): (r: Navigation)
    ensures rawUrl == "" <==> r == NoNavigation
    ensures rawUrl != "" ==> r == OpenInNewTab(HttpsVariant(rawUrl), popupOpened, openerWritable)
    ensures IsHttpUrl(rawUrl) ==> Target(r) == Some(HttpsPrefix + rawUrl[7..])
    ensures rawUrl != "" && !IsHttpUrl(rawUrl) ==> Target(r) == Some(rawUrl)
    ensures Target(r).Some? ==> !IsHttpUrl(Target(r).value)
  {
    var variant := HttpsVariant(rawUrl);
    HttpsVariantIdempotent(rawUrl);
    if variant == "" then NoNavigation else OpenInNewTab(variant, popupOpened, openerWritable)
  }

  /** What the "Copy HTTPS URL" button does: a write it does not wait for, and an alert. */
  datatype HttpsCopy = HttpsCopy(written: string, notice: string)

  /**
   The "Copy HTTPS URL" button: nothing without a suggestion; otherwise the
   write's failure is swallowed, so the alert does not depend on it.
   */
  function CopyHttpsUrl(rawUrl: string): (r: Option<HttpsCopy>)
    ensures r.None? <==> rawUrl == ""
    ensures r.Some? ==> r.value.written == HttpsVariant(rawUrl) && r.value.notice == HttpsCopiedNotice
    ensures r.Some? ==> !IsHttpUrl(r.value.written)
  {
    HttpsVariantIdempotent(rawUrl);
    var variant := HttpsVariant(rawUrl);
    if variant == "" then None else Some(HttpsCopy(variant, HttpsCopiedNotice))
  }
}
