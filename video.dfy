/** Video iframe detection and the counter-inversion filter put directly on
    video iframes (their cross-origin content cannot be styled from outside). */
module Video {
  import opened Values
  import opened Text
  import Config

  /** The attributes the classifier reads from an iframe element. */
  datatype IframeAttrs = IframeAttrs(
    allow: string,            // getAttribute('allow') || ''
    title: string,            // iframe.title
    ariaLabel: string,        // getAttribute('aria-label') || ''
    hasAllowFullscreen: bool, // an allowfullscreen / allowFullScreen attribute is present
    srcPath: Option<string>,  // new URL(src, location.href).pathname; None when the constructor throws
    className: string,
    id: string)

  predicate StrongSignal(a: IframeAttrs)
  {
    Config.VideoStrongAllow(a.allow)
  }

  predicate TitleSignal(a: IframeAttrs)
  {
    Config.VideoTitle(Lower(a.title + " " + a.ariaLabel))
  }

  /** The allow policy of Brightspace's own content viewer. */
  predicate ViewerSignature(a: IframeAttrs)
  {
    Contains(a.allow, "encrypted-media") && Contains(a.allow, "clipboard-write")
  }

  predicate AutoplaySignal(a: IframeAttrs)
  {
    Config.VideoAutoplay(a.allow)
  }

  predicate PathSignal(a: IframeAttrs)
  {
    a.srcPath.Some? && Config.VideoPath(Lower(a.srcPath.value))
  }

  predicate ClassIdSignal(a: IframeAttrs)
  {
    Config.VideoClassId(Lower(a.className + " " + a.id))
  }

  /** `isVideoIframe`: the tiered heuristic, first decisive test wins. Without
      a strong or title signal, only an iframe that allows fullscreen and does
      not carry the content viewer's policy can be video. */
  predicate IsVideoIframe(a: IframeAttrs): (r: bool)
    ensures r ==> StrongSignal(a) || TitleSignal(a) || a.hasAllowFullscreen
    ensures r && ViewerSignature(a) ==> StrongSignal(a) || TitleSignal(a)
  {
    if StrongSignal(a) then true
    else if TitleSignal(a) then true
    else if ViewerSignature(a) then false
    else if !a.hasAllowFullscreen then false
    else if AutoplaySignal(a) then true
    else if PathSignal(a) then true
    else if ClassIdSignal(a) then true
    else false
  }

  /* ---- The classifier as an ordered rule list ---- */

  /** A rule that, when it fires, decides the classification. */
  datatype Rule = Rule(fires: bool, verdict: bool)

  /** The classifier's rules in the order they are tried. */
  function Rules(a: IframeAttrs): seq<Rule>
  {
    [ Rule(StrongSignal(a), true),
      Rule(TitleSignal(a), true),
      Rule(ViewerSignature(a), false),
      Rule(!a.hasAllowFullscreen, false),
      Rule(AutoplaySignal(a), true),
      Rule(PathSignal(a), true),
      Rule(ClassIdSignal(a), true) ]
  }

  /** The verdict of the first rule that fires; no rule firing means "not video". */
  function FirstVerdict(rules: seq<Rule>): bool
  {
    if rules == [] then false
    else if rules[0].fires then rules[0].verdict
    else FirstVerdict(rules[1..])
  }

  /** The classifier is exactly its rule list evaluated short-circuit. */
  lemma ClassifierIsRuleCascade(a: IframeAttrs)
    ensures IsVideoIframe(a) == FirstVerdict(Rules(a))
  {
    var r := Rules(a);
    var r1, r2, r3, r4, r5, r6 := r[1..], r[2..], r[3..], r[4..], r[5..], r[6..];
    assert r1[1..] == r2 && r2[1..] == r3 && r3[1..] == r4;
    assert r4[1..] == r5 && r5[1..] == r6 && r6[1..] == [];
    assert FirstVerdict(r6) == (if r[6].fires then r[6].verdict else false);
    assert FirstVerdict(r5) == (if r[5].fires then r[5].verdict else FirstVerdict(r6));
    assert FirstVerdict(r4) == (if r[4].fires then r[4].verdict else FirstVerdict(r5));
    assert FirstVerdict(r3) == (if r[3].fires then r[3].verdict else FirstVerdict(r4));
    assert FirstVerdict(r2) == (if r[2].fires then r[2].verdict else FirstVerdict(r3));
    assert FirstVerdict(r1) == (if r[1].fires then r[1].verdict else FirstVerdict(r2));
    assert FirstVerdict(r) == (if r[0].fires then r[0].verdict else FirstVerdict(r1));
  }

  /** The classifier in one formula: a strong or title signal, or else
      fullscreen plus one more hint outside Brightspace's own viewer. */
  lemma VideoIff(a: IframeAttrs)
    ensures IsVideoIframe(a) <==>
      StrongSignal(a) || TitleSignal(a)
      || (!ViewerSignature(a) && a.hasAllowFullscreen
          && (AutoplaySignal(a) || PathSignal(a) || ClassIdSignal(a)))
  {
  }

  /** picture-in-picture classifies as video regardless of every other attribute. */
  lemma PictureInPictureWins(a: IframeAttrs)
    requires Contains(a.allow, "picture-in-picture")
    ensures IsVideoIframe(a)
  {
  }

  /** The title test comes before the content-viewer exclusion. */
  lemma TitleBeatsViewerSignature(a: IframeAttrs)
    requires TitleSignal(a) && ViewerSignature(a)
    ensures IsVideoIframe(a)
  {
  }

  lemma ViewerSignatureRejects(a: IframeAttrs)
    requires !StrongSignal(a) && !TitleSignal(a) && ViewerSignature(a)
    ensures !IsVideoIframe(a)
  {
  }

  lemma NoFullscreenRejects(a: IframeAttrs)
    requires !StrongSignal(a) && !TitleSignal(a) && !a.hasAllowFullscreen
    ensures !IsVideoIframe(a)
  {
  }

  /** With fullscreen allowed and no earlier decision, any one of the three
      weaker hints decides. */
  lemma FullscreenNeedsOneHint(a: IframeAttrs)
    requires !StrongSignal(a) && !TitleSignal(a) && !ViewerSignature(a) && a.hasAllowFullscreen
    ensures IsVideoIframe(a) <==> AutoplaySignal(a) || PathSignal(a) || ClassIdSignal(a)
  {
  }

  /** An src the URL constructor rejects only skips the path test. */
  lemma UnparseableSrcSkipsPathOnly(a: IframeAttrs)
    requires a.srcPath.None?
    ensures IsVideoIframe(a) <==>
      StrongSignal(a) || TitleSignal(a)
      || (!ViewerSignature(a) && a.hasAllowFullscreen && (AutoplaySignal(a) || ClassIdSignal(a)))
  {
  }

  /** Examples: a bare picture-in-picture iframe is video; a fullscreen iframe
      whose src is an /embed/ path is video, and is not without fullscreen. */
  lemma Examples()
    ensures IsVideoIframe(IframeAttrs("picture-in-picture", "", "", false, None, "", ""))
    ensures IsVideoIframe(IframeAttrs("", "", "", true, Some("/embed/abc123"), "", ""))
    ensures !IsVideoIframe(IframeAttrs("", "", "", false, Some("/embed/abc123"), "", ""))
  {
    assert StartsWith("picture-in-picture", "picture-in-picture");
    var path := Lower("/embed/abc123");
    assert path[..7] == "/embed/";
    assert StartsWith(path, "/embed/");
    var a := IframeAttrs("", "", "", false, Some("/embed/abc123"), "", "");
    assert !Contains("", "picture-in-picture");
    var text := Lower(a.title + " " + a.ariaLabel);
    assert |text| == 1;
    assert !Config.VideoTitle(text);
  }

  /* ---- Applying the filter ---- */

  /** An iframe's inline `filter` style. */
  datatype Filter = NoFilter | CounterInversion | OtherFilter(css: string)

  /** The inline filter that undoes the page inversion. */
  const CounterInversionCss := "invert(1) hue-rotate(180deg)"

  class Iframe {
    const attrs: IframeAttrs
    var filter: Filter
  }

  /** The filter a video iframe has after `applyVideoModeToIframe`: unchanged
      while dark mode is off, removed when video dark mode is on, otherwise the
      counter-inversion. */
  function FilterAfter(f: Filter, darkModeEnabled: bool, videoDarkModeEnabled: bool): (r: Filter)
    ensures !darkModeEnabled ==> r == f
    ensures darkModeEnabled ==> (r == CounterInversion <==> !videoDarkModeEnabled)
    ensures darkModeEnabled ==> (r == NoFilter <==> videoDarkModeEnabled)
  {
    if !darkModeEnabled then f
    else if videoDarkModeEnabled then NoFilter
    else CounterInversion
  }

  /** Applying the mode twice is the same as once. */
  lemma FilterAfterIdempotent(f: Filter, dark: bool, videoDark: bool)
    ensures FilterAfter(FilterAfter(f, dark, videoDark), dark, videoDark) == FilterAfter(f, dark, videoDark)
  {
  }

  method ApplyVideoModeToIframe(iframe: Iframe, darkModeEnabled: bool, videoDarkModeEnabled: bool)
    modifies iframe`filter
    ensures iframe.filter == FilterAfter(old(iframe.filter), darkModeEnabled, videoDarkModeEnabled)
  {
    if !darkModeEnabled {
      return;
    }
    if videoDarkModeEnabled {
      iframe.filter := NoFilter;
    } else {
      iframe.filter := CounterInversion;
    }
  }

  /** The filter an iframe has after `applyVideoMode`. */
  function ModeApplied(f: Iframe, before: Filter, darkModeEnabled: bool, videoDarkModeEnabled: bool): Filter
  {
    if IsVideoIframe(f.attrs) then FilterAfter(before, darkModeEnabled, videoDarkModeEnabled) else before
  }

  /** `applyVideoMode` over the document's iframes: video iframes get the
      mode's filter, every other iframe keeps its style. */
  method ApplyVideoMode(iframes: seq<Iframe>, darkModeEnabled: bool, videoDarkModeEnabled: bool)
    modifies iframes`filter
    ensures forall f :: f in iframes ==>
      f.filter == ModeApplied(f, old(f.filter), darkModeEnabled, videoDarkModeEnabled)
    ensures forall f :: f in iframes && !IsVideoIframe(f.attrs) ==> f.filter == old(f.filter)
  {
    for i := 0 to |iframes|
      invariant forall f :: f in iframes[..i] ==>
        f.filter == ModeApplied(f, old(f.filter), darkModeEnabled, videoDarkModeEnabled)
      invariant forall f :: f in iframes && f !in iframes[..i] ==> f.filter == old(f.filter)
    {
      assert iframes[..i + 1] == iframes[..i] + [iframes[i]];
      if IsVideoIframe(iframes[i].attrs) {
        ApplyVideoModeToIframe(iframes[i], darkModeEnabled, videoDarkModeEnabled);
      }
    }
    assert iframes[..|iframes|] == iframes;
  }
}
