/** Brightspace detection: what a frame knows about itself and its parent, the
    fast synchronous check, the deferred DOM check, and the cascade that decides
    whether and when the detection callback runs. */
module Detection {
  import opened Values
  import opened Text
  import opened Hosts
  import Config

  /** What the running frame can see of its parent browsing context. */
  datatype ParentView =
      /** `window.self === window.top`: there is no parent. */
    | TopWindow
      /** Reading `window.parent.document` throws. */
    | CrossOrigin
      /** The parent document is readable. */
    | SameOrigin(
        isFrameset: bool,       // the parent document contains a <frameset>
        classes: set<string>,   // classes on the parent's root element
        href: string,           // window.parent.location.href
        hostname: string,       // window.parent.location.hostname
        hasAppVersion: bool)    // the parent's root element has data-app-version

  /** The facts about the running frame that detection reads. */
  datatype Frame = Frame(
    href: string,         // window.location.href
    hostname: string,     // window.location.hostname
    hasAppVersion: bool,  // the root element has data-app-version
    parent: ParentView)

  /** An element of the document, as far as the deferred selector
      `d2l-navigation, [class*="d2l-"], meta[name="d2l"]` looks at it. */
  datatype Element = Element(tag: string, classAttr: Option<string>, name: Option<string>)

  /** The fast check: the URL path, the root's version attribute, or a known
      host; each alone suffices, and every brightspace.com subdomain is known. */
  predicate IsBrightspace(f: Frame): (r: bool)
    ensures Contains(f.href, "/d2l/") ==> r
    ensures f.hasAppVersion ==> r
    ensures MatchesHost(f.hostname, "brightspace.com") ==> r
  {
    assert Config.KnownHosts[2] == "brightspace.com";
    Config.D2lPath(f.href) || f.hasAppVersion || MatchesAny(f.hostname, Config.KnownHosts)
  }

  predicate MatchesDeferredSelector(e: Element)
  {
    e.tag == "d2l-navigation"
    || (e.classAttr.Some? && Contains(e.classAttr.value, "d2l-"))
    || (e.tag == "meta" && e.name == Some("d2l"))
  }

  /** `!!document.querySelector(BRIGHTSPACE_DEFERRED_SELECTOR)`: an empty
      document never matches; a `d2l-navigation` element or a `d2l` meta tag
      anywhere does. */
  predicate IsBrightspaceDeferred(dom: seq<Element>): (r: bool)
    ensures dom == [] ==> !r
    ensures forall i :: 0 <= i < |dom| && dom[i].tag == "d2l-navigation" ==> r
    ensures forall i :: 0 <= i < |dom| && dom[i].tag == "meta" && dom[i].name == Some("d2l") ==> r
  {
    exists i :: 0 <= i < |dom| && MatchesDeferredSelector(dom[i])
  }

  /** A child frame whose parent document cannot be read. */
  function IsCrossOriginChild(parent: ParentView): (r: bool)
    ensures parent.TopWindow? ==> !r
    ensures !parent.TopWindow? ==> (r <==> !parent.SameOrigin?)
  {
    match parent
    case TopWindow => false
    case CrossOrigin => true
    case SameOrigin(_, _, _, _, _) => false
  }

  /** When the detection callback runs. */
  datatype Schedule =
    | CallNow        // synchronously, before `initIfBrightspace` returns
    | CallWhenReady  // once DOMContentLoaded fires, if the deferred check then holds
    | NoCall

  /** `initIfBrightspace`. `loading` is `document.readyState === 'loading'` and
      `dom` the document as it is when the function runs. */
  function InitIfBrightspace(f: Frame, customDomains: seq<string>, loading: bool, dom: seq<Element>): (r: Schedule)
    ensures IsBrightspace(f) || MatchesAny(f.hostname, customDomains) ==> r == CallNow
    ensures r == CallWhenReady ==> loading && !IsCrossOriginChild(f.parent)
    ensures !IsCrossOriginChild(f.parent) && !loading && IsBrightspaceDeferred(dom) ==> r == CallNow
  {
    if IsBrightspace(f) then CallNow
    else if MatchesAny(f.hostname, customDomains) then CallNow
    else if IsCrossOriginChild(f.parent) then NoCall
    else if loading then CallWhenReady
    else if IsBrightspaceDeferred(dom) then CallNow
    else NoCall
  }

  /** How many times the callback runs, given the document at DOMContentLoaded. */
  function CallbackCount(s: Schedule, domAtReady: seq<Element>): (n: nat)
    ensures n <= 1
    ensures s.CallNow? ==> n == 1
    ensures s.NoCall? ==> n == 0
  {
    match s
    case CallNow => 1
    case NoCall => 0
    case CallWhenReady => if IsBrightspaceDeferred(domAtReady) then 1 else 0
  }

  /** The callback runs (exactly once) iff the fast check or a custom domain
      matches, or the frame is not a cross-origin child and the deferred
      selector matches the document once it is ready. */
  lemma InitCallbackIff(f: Frame, customDomains: seq<string>, loading: bool, dom: seq<Element>, domAtReady: seq<Element>)
    ensures var n := CallbackCount(InitIfBrightspace(f, customDomains, loading, dom), domAtReady);
      n <= 1 &&
      (n == 1 <==>
        IsBrightspace(f) || MatchesAny(f.hostname, customDomains)
        || (!IsCrossOriginChild(f.parent) && IsBrightspaceDeferred(if loading then domAtReady else dom)))
  {
  }

  /** The fast check and a custom domain both fire synchronously. */
  lemma FastOrCustomCallsNow(f: Frame, customDomains: seq<string>, loading: bool, dom: seq<Element>)
    requires IsBrightspace(f) || MatchesAny(f.hostname, customDomains)
    ensures InitIfBrightspace(f, customDomains, loading, dom) == CallNow
  {
  }

  /** A cross-origin child that fails both synchronous checks never fires,
      whatever its document contains. */
  lemma CrossOriginChildNeverCalls(f: Frame, customDomains: seq<string>, loading: bool, dom: seq<Element>)
    requires f.parent.CrossOrigin?
    requires !IsBrightspace(f) && !MatchesAny(f.hostname, customDomains)
    ensures InitIfBrightspace(f, customDomains, loading, dom) == NoCall
  {
  }

  /** The fast check accepts the URL path signature alone. */
  lemma PathSignatureSuffices(f: Frame)
    requires Contains(f.href, "/d2l/")
    ensures IsBrightspace(f)
  {
  }
}
