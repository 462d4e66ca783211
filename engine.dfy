/** The enable/disable engine: whether this frame is the effective root of the
    inversion, the marker classes on the root and body elements, the main
    stylesheet link, and the `D2L.state` record the other scripts read. */
module Engine {
  import opened Values
  import opened Hosts
  import Text
  import opened Detection
  import Config
  import Gate
  import Shadow
  import Video

  /* ---- Frame role ---- */

  /** `shouldApplyFilter`: the first decisive test wins. A frame applies the
      inversion itself unless its readable, non-frameset parent already carries
      a marker class or looks like Brightspace. */
  function ShouldApplyFilter(parent: ParentView): (r: bool)
    ensures parent.TopWindow? ==> r
    ensures parent.CrossOrigin? ==> r
    ensures parent.SameOrigin? && parent.isFrameset ==> r
    ensures parent.SameOrigin? && !parent.isFrameset && ParentMarked(parent.classes) ==> !r
  {
    match parent
    case TopWindow => true
    case CrossOrigin => true
    case SameOrigin(isFrameset, classes, href, hostname, hasAppVersion) =>
      if isFrameset then true
      else if Config.Top in classes || Config.Nested in classes then false
      else if Config.Active in classes then false
      else if Config.D2lPath(href) then false
      else if hasAppVersion then false
      else if MatchesAny(hostname, Config.KnownHosts) then false
      else true
  }

  /** A readable parent that carries none of the marker classes counts as
      Brightspace by exactly the fast detection check applied to the parent. */
  predicate ParentMarked(classes: set<string>)
  {
    Config.Top in classes || Config.Nested in classes || Config.Active in classes
  }

  /** Outside framesets, a same-origin child applies the filter itself exactly
      when its parent is neither marked nor Brightspace by the fast check. */
  lemma ShouldApplyFilterIff(isFrameset: bool, classes: set<string>, href: string, hostname: string,
                             hasAppVersion: bool, grandparent: ParentView)
    requires !isFrameset
    ensures ShouldApplyFilter(SameOrigin(isFrameset, classes, href, hostname, hasAppVersion)) <==>
      !ParentMarked(classes) && !IsBrightspace(Frame(href, hostname, hasAppVersion, grandparent))
  {
  }

  /** The frameset test comes before every class test. */
  lemma FramesetWins(classes: set<string>, href: string, hostname: string, hasAppVersion: bool)
    requires ParentMarked(classes) || Config.D2lPath(href) || hasAppVersion
    ensures ShouldApplyFilter(SameOrigin(true, classes, href, hostname, hasAppVersion))
  {
  }

  /** A child that the gate fast-matched through its parent is never the
      effective root unless that parent is a frameset. */
  lemma GateParentMatchIsNotRoot(parent: ParentView)
    requires Gate.ParentMarksApp(parent) && !parent.isFrameset
    ensures !ShouldApplyFilter(parent)
  {
  }

  /** A child frame whose parent cannot be read is its own effective root,
      exactly the frames detection calls cross-origin children. */
  lemma CrossOriginChildIsRoot(parent: ParentView)
    requires IsCrossOriginChild(parent)
    ensures ShouldApplyFilter(parent)
  {
  }

  /** `isDocumentViewer` on the frame's own URL: one of the viewer markers
      occurs in it. */
  predicate IsDocumentViewer(href: string): (r: bool)
    ensures r <==> Text.Contains(href, "viewFile") || Text.Contains(href, "viewer.html") || Text.Contains(href, "pdfjs")
  {
    Config.DocumentViewer(href)
  }

  /* ---- Root element classes ---- */

  /** The marker classes the engine owns. */
  function Markers(): (m: set<string>)
    ensures |m| == 4
  {
    {Config.Active, Config.Top, Config.Nested, Config.DocDark}
  }

  /** The root's classes after `enableDarkMode`: ACTIVE always, TOP and NESTED
      in the effective root; every other class kept. */
  function RootClassesAfterEnable(c: set<string>, isEffectiveRoot: bool): (r: set<string>)
    ensures c <= r && Config.Active in r
    ensures Config.Top in r <==> isEffectiveRoot || Config.Top in c
    ensures Config.Nested in r <==> isEffectiveRoot || Config.Nested in c
    ensures forall x :: x in r && x !in c ==> x in {Config.Active, Config.Top, Config.Nested}
  {
    c + {Config.Active} + (if isEffectiveRoot then {Config.Top, Config.Nested} else {})
  }

  /** The root's classes after `disableDarkMode`: the four markers gone,
      every other class kept. */
  function RootClassesAfterDisable(c: set<string>): (r: set<string>)
    ensures r !! Markers()
    ensures forall x :: x !in Markers() ==> (x in r <==> x in c)
  {
    c - Markers()
  }

  /** `classList.remove` as written also receives `CFG.CSS.VIDEO_DARK`, which
      the class table does not define; the `undefined` argument becomes the
      class name "undefined". */
  function RootClassesAfterDisableAsWritten(c: set<string>): (r: set<string>)
    ensures r !! Markers() && "undefined" !in r
    ensures forall x :: x !in Markers() && x != "undefined" ==> (x in r <==> x in c)
  {
    c - Markers() - {"undefined"}
  }

  /** A page's own class named "undefined" is removed by the code as written
      and kept by the intended removal. */
  lemma DisableAsWrittenDropsPageClass()
    ensures RootClassesAfterDisableAsWritten({"undefined"}) == {}
    ensures RootClassesAfterDisable({"undefined"}) == {"undefined"}
  {
    assert "undefined" !in Markers();
  }

  /** The two removals agree on every page without a class "undefined". */
  lemma DisableAsWrittenAgreesOtherwise(c: set<string>)
    requires "undefined" !in c
    ensures RootClassesAfterDisableAsWritten(c) == RootClassesAfterDisable(c)
  {
  }

  /** Disabling after enabling leaves exactly what disabling alone leaves,
      whatever markers the gate or the document mode put there first; on a
      root that carried no marker, it restores the root. */
  lemma DisableUndoesEnable(c: set<string>, isEffectiveRoot: bool)
    ensures RootClassesAfterDisable(RootClassesAfterEnable(c, isEffectiveRoot)) == RootClassesAfterDisable(c)
    ensures c !! Markers() ==> RootClassesAfterDisable(RootClassesAfterEnable(c, isEffectiveRoot)) == c
  {
  }

  lemma EnableIdempotent(c: set<string>, isEffectiveRoot: bool)
    ensures RootClassesAfterEnable(RootClassesAfterEnable(c, isEffectiveRoot), isEffectiveRoot)
         == RootClassesAfterEnable(c, isEffectiveRoot)
  {
  }

  /** The root's classes after `applyDocDarkMode`: DOC_DARK present exactly
      when document dark mode is on and the URL is a viewer URL. */
  function RootClassesAfterDocDark(c: set<string>, documentDarkModeEnabled: bool, href: string): (r: set<string>)
    ensures Config.DocDark in r <==> documentDarkModeEnabled && IsDocumentViewer(href)
    ensures r - {Config.DocDark} == c - {Config.DocDark}
  {
    if documentDarkModeEnabled && IsDocumentViewer(href) then c + {Config.DocDark} else c - {Config.DocDark}
  }

  /** The document class and the enable classes do not interfere: applying
      them in either order gives the same root. */
  lemma DocDarkCommutesWithEnable(c: set<string>, isEffectiveRoot: bool, doc: bool, href: string)
    ensures RootClassesAfterDocDark(RootClassesAfterEnable(c, isEffectiveRoot), doc, href)
         == RootClassesAfterEnable(RootClassesAfterDocDark(c, doc, href), isEffectiveRoot)
  {
  }

  /* ---- The main stylesheet link ---- */

  /** Elements carrying the stylesheet id after `injectDarkModeStylesheet`:
      one is appended only when there is none. */
  function LinksAfterInject(n: nat): (r: nat)
    ensures r >= 1
    ensures n >= 1 ==> r == n
  {
    if n >= 1 then n else 1
  }

  /** After `removeDarkModeStylesheet`: the first element with the id is
      removed, if there is one. */
  function LinksAfterRemove(n: nat): (r: nat)
    ensures n >= 1 ==> r + 1 == n
    ensures n == 0 ==> r == 0
  {
    if n >= 1 then n - 1 else 0
  }

  /** Injecting is idempotent, removing undoes injecting into a page without
      the link, and the two keep the link unique. */
  lemma StylesheetLinkRoundTrip(n: nat)
    ensures LinksAfterInject(LinksAfterInject(n)) == LinksAfterInject(n)
    ensures LinksAfterRemove(LinksAfterInject(0)) == 0
    ensures n <= 1 ==> LinksAfterInject(n) == 1 && LinksAfterRemove(n) == 0
  {
  }

  /* ---- The page ---- */

  /** One frame's document as the engine sees it, together with `D2L.state`.
      `isEffectiveRoot` is computed once, when the script loads. */
  class Page {
    var darkModeEnabled: bool
    var documentDarkModeEnabled: bool
    var videoDarkModeEnabled: bool
    var initialized: bool
    const isEffectiveRoot: bool
    const href: string                // window.location.href
    var rootClasses: set<string>      // document.documentElement.classList
    var hasBody: bool                 // document.body !== null
    var bodyClasses: set<string>      // document.body.classList
    var pendingBodyActive: nat        // DOMContentLoaded listeners that add ACTIVE to the body
    var stylesheetLinks: nat          // elements with the stylesheet id
    var changeListeners: nat          // storage change listeners registered by the entry script
    const shadow: Shadow.Propagator
    const iframes: seq<Video.Iframe>  // document.querySelectorAll('iframe')

    /** The shadow roots are well formed and their observers registered, the
        stylesheet link is unique, and one change listener exists once the
        entry script has initialised. */
    ghost predicate Valid()
      reads this, shadow, shadow.WatchedRoots()
    {
      shadow.RootsValid() && shadow.Registered() && stylesheetLinks <= 1
      && changeListeners == (if initialized then 1 else 0)
    }

    /** The script's load: `D2L.state` at its initial values and the frame
        role computed from the parent. */
    constructor(parent: ParentView, href: string, rootClasses: set<string>, hasBody: bool,
                bodyClasses: set<string>, shadow: Shadow.Propagator, iframes: seq<Video.Iframe>)
      requires shadow.RootsValid() && shadow.Registered()
      ensures darkModeEnabled && !documentDarkModeEnabled && !videoDarkModeEnabled && !initialized
      ensures isEffectiveRoot == ShouldApplyFilter(parent)
      ensures this.href == href && this.rootClasses == rootClasses
      ensures this.hasBody == hasBody && this.bodyClasses == bodyClasses
      ensures pendingBodyActive == 0 && stylesheetLinks == 0 && changeListeners == 0
      ensures this.shadow == shadow && this.iframes == iframes
      ensures Valid()
    {
      darkModeEnabled := true;
      documentDarkModeEnabled := false;
      videoDarkModeEnabled := false;
      initialized := false;
      isEffectiveRoot := ShouldApplyFilter(parent);
      this.href := href;
      this.rootClasses := rootClasses;
      this.hasBody := hasBody;
      this.bodyClasses := bodyClasses;
      pendingBodyActive := 0;
      stylesheetLinks := 0;
      changeListeners := 0;
      this.shadow := shadow;
      this.iframes := iframes;
    }

    method InjectDarkModeStylesheet()
      modifies this`stylesheetLinks
      ensures stylesheetLinks == LinksAfterInject(old(stylesheetLinks))
    {
      if stylesheetLinks >= 1 {
        return;
      }
      stylesheetLinks := stylesheetLinks + 1;
    }

    method RemoveDarkModeStylesheet()
      modifies this`stylesheetLinks
      ensures stylesheetLinks == LinksAfterRemove(old(stylesheetLinks))
    {
      if stylesheetLinks >= 1 {
        stylesheetLinks := stylesheetLinks - 1;
      }
    }

    /** `applyDocDarkMode`: the document class follows the setting; in a frame
        that is not the effective root the shared sheet is rebuilt, listing
        `canvas` only while document dark mode is off and `video` only while
        video dark mode is off. */
    method ApplyDocDarkMode()
      requires Valid()
      modifies this`rootClasses, shadow`sharedMedia
      ensures Valid()
      ensures rootClasses == RootClassesAfterDocDark(old(rootClasses), documentDarkModeEnabled, href)
      ensures shadow.sharedMedia ==
        if isEffectiveRoot then old(shadow.sharedMedia)
        else Shadow.BuildShadowMedia(!documentDarkModeEnabled, !videoDarkModeEnabled)
    {
      if documentDarkModeEnabled && IsDocumentViewer(href) {
        rootClasses := rootClasses + {Config.DocDark};
      } else {
        rootClasses := rootClasses - {Config.DocDark};
      }
      if !isEffectiveRoot {
        shadow.sharedMedia := Shadow.BuildShadowMedia(!documentDarkModeEnabled, !videoDarkModeEnabled);
      }
    }

    /** `enableDarkMode`. The fullscreen handler it starts is defined in no
        script of the extension and is a no-op here. */
    method Enable()
      requires Valid()
      requires forall r :: r in Shadow.Reach(shadow.docHosted) ==> allocated(r)
      modifies this`stylesheetLinks, this`rootClasses, this`bodyClasses, this`pendingBodyActive
      modifies shadow`observers, shadow`documentObserver, shadow`rescanRunning
      modifies Shadow.Reach(shadow.docHosted)`sheets, Shadow.Reach(shadow.docHosted)`observed, iframes`filter
      ensures Valid()
      ensures stylesheetLinks == LinksAfterInject(old(stylesheetLinks))
      ensures rootClasses == RootClassesAfterEnable(old(rootClasses), isEffectiveRoot)
      ensures hasBody ==> bodyClasses == old(bodyClasses) + {Config.Active} && pendingBodyActive == old(pendingBodyActive)
      ensures !hasBody ==> bodyClasses == old(bodyClasses) && pendingBodyActive == old(pendingBodyActive) + 1
      ensures shadow.documentObserver && old(shadow.observers) <= shadow.observers
      ensures shadow.rescanRunning == (old(shadow.rescanRunning) || !old(shadow.documentObserver))
      ensures forall r :: r in Shadow.Reach(shadow.docHosted) ==>
        r.observed && r.sheets == Shadow.Inserted(old(r.sheets))
      ensures forall f :: f in iframes ==>
        f.filter == Video.ModeApplied(f, old(f.filter), darkModeEnabled, videoDarkModeEnabled)
    {
      MarkEnabled();
      StylesheetLinkRoundTrip(old(stylesheetLinks));
      shadow.StartShadowObserver();
      label started:
      Video.ApplyVideoMode(iframes, darkModeEnabled, videoDarkModeEnabled);
      assert shadow.observers == old@started(shadow.observers);
      assert shadow.Registered();
    }

    /** The part of `enableDarkMode` that touches this document's own
        elements: the link, the root classes and the body class. */
    method MarkEnabled()
      modifies this`stylesheetLinks, this`rootClasses, this`bodyClasses, this`pendingBodyActive
      ensures stylesheetLinks == LinksAfterInject(old(stylesheetLinks))
      ensures rootClasses == RootClassesAfterEnable(old(rootClasses), isEffectiveRoot)
      ensures hasBody ==> bodyClasses == old(bodyClasses) + {Config.Active} && pendingBodyActive == old(pendingBodyActive)
      ensures !hasBody ==> bodyClasses == old(bodyClasses) && pendingBodyActive == old(pendingBodyActive) + 1
    {
      InjectDarkModeStylesheet();
      rootClasses := rootClasses + {Config.Active};
      if isEffectiveRoot {
        rootClasses := rootClasses + {Config.Top};
        rootClasses := rootClasses + {Config.Nested};
      }
      if hasBody {
        bodyClasses := bodyClasses + {Config.Active};
      } else {
        pendingBodyActive := pendingBodyActive + 1;
      }
    }

    /** `disableDarkMode`, with the corrected class removal. The fullscreen
        handler and the iframe clean-up helpers it calls are defined in no
        script of the extension and are no-ops here. */
    method Disable()
      requires Valid()
      requires forall r :: r in Shadow.Reach(shadow.docHosted) ==> allocated(r)
      modifies this`stylesheetLinks, this`rootClasses, this`bodyClasses
      modifies shadow`observers, shadow`documentObserver, shadow`rescanRunning
      modifies Shadow.Reach(shadow.docHosted)`sheets, Shadow.Reach(shadow.docHosted)`observed
      ensures Valid()
      ensures stylesheetLinks == LinksAfterRemove(old(stylesheetLinks))
      ensures rootClasses == RootClassesAfterDisable(old(rootClasses))
      ensures bodyClasses == if hasBody then old(bodyClasses) - {Config.Active} else old(bodyClasses)
      ensures shadow.observers == multiset{} && !shadow.documentObserver && !shadow.rescanRunning
      ensures forall r :: r in Shadow.Reach(shadow.docHosted) ==>
        !r.observed && r.sheets == Shadow.Removed(old(r.sheets))
    {
      RemoveDarkModeStylesheet();
      rootClasses := rootClasses - Markers();
      if hasBody {
        bodyClasses := bodyClasses - {Config.Active};
      }
      shadow.StopShadowObserver();
      shadow.RemoveShadowStyles();
    }

    /** The document finishes parsing: the body appears, and each pending
        listener adds ACTIVE to it, whatever the state is by then. */
    method OnDomContentLoaded()
      requires !hasBody
      modifies this`hasBody, this`bodyClasses, this`pendingBodyActive
      ensures hasBody && pendingBodyActive == 0
      ensures bodyClasses == if old(pendingBodyActive) > 0 then old(bodyClasses) + {Config.Active} else old(bodyClasses)
    {
      hasBody := true;
      if pendingBodyActive > 0 {
        bodyClasses := bodyClasses + {Config.Active};
      }
      pendingBodyActive := 0;
    }

    /** One tick of the rescan interval: the walk over the shadow roots and
        the video pass, while the interval runs. */
    method RescanTick()
      requires Valid()
      requires forall r :: r in Shadow.Reach(shadow.docHosted) ==> allocated(r)
      modifies shadow`observers, Shadow.Reach(shadow.docHosted)`sheets, Shadow.Reach(shadow.docHosted)`observed, iframes`filter
      ensures Valid()
      ensures old(shadow.rescanRunning) ==> old(shadow.observers) <= shadow.observers
      ensures old(shadow.rescanRunning) ==> forall r :: r in Shadow.Reach(shadow.docHosted) ==>
        r.observed && r.sheets == Shadow.Inserted(old(r.sheets))
      ensures !old(shadow.rescanRunning) ==>
        shadow.observers == old(shadow.observers) && unchanged(Shadow.Reach(shadow.docHosted))
      ensures forall f :: f in iframes ==>
        f.filter == if shadow.rescanRunning then Video.ModeApplied(f, old(f.filter), darkModeEnabled, videoDarkModeEnabled)
                    else old(f.filter)
    {
      if !shadow.rescanRunning {
        return;
      }
      shadow.InjectAllShadowRoots(shadow.docHosted, Shadow.Bound(shadow.docHosted));
      Video.ApplyVideoMode(iframes, darkModeEnabled, videoDarkModeEnabled);
    }
  }
}
