/** The extension's shared configuration: storage keys, defaults, marker class
    names, URL and attribute patterns, the host lists, and the two helpers that
    read stored settings. */
module Config {
  import opened Values
  import opened Text
  import opened Hosts

  /* ---- Storage keys ---- */

  const DarkModeKey := "darkModeEnabled"
  const DocumentDarkModeKey := "documentDarkModeEnabled"
  /** Legacy key, still read (never written) so an old preference survives. */
  const PdfDarkModeKey := "pdfDarkModeEnabled"
  const VideoDarkModeKey := "videoDarkModeEnabled"
  const CustomDomainsKey := "customDomains"

  /** The key the gate reads the user's excluded domains under. The key table
      has no entry for it, so the gate's lookup yields `undefined`. */
  const ExcludedDomainsKeyAsWritten: Option<string> := None
  /** The key the settings record names for the excluded domains. */
  const ExcludedDomainsKey := "excludedDomains"

  /* ---- Defaults ---- */

  datatype Defaults = Defaults(
    darkModeEnabled: bool,
    documentDarkModeEnabled: bool,
    videoDarkModeEnabled: bool,
    customDomains: seq<string>)

  const DEFAULTS := Defaults(true, false, false, [])

  /* ---- Marker classes and element ids ---- */

  const Active := "d2l-dark-mode-active"
  const Top := "d2l-dark-mode-top"
  const Nested := "d2l-dark-mode-nested"
  const DocDark := "d2l-doc-dark"
  const StylesheetId := "d2l-dark-mode-main-css"

  /** The attribute Brightspace pages carry on their root element. */
  const AppVersionAttribute := "data-app-version"
  /** The attribute the gate leaves on the root once it has detected the page. */
  const DetectedAttribute := "data-d2l-detected"

  /* ---- Timing ---- */

  const RescanIntervalMs := 2000
  const RescanTimeoutMs := 30000

  /* ---- URL and attribute patterns ---- */

  /** `/\/d2l\//` */
  predicate D2lPath(url: string)
  {
    Contains(url, "/d2l/")
  }

  /** `/viewFile|viewer\.html|pdfjs/` */
  predicate DocumentViewer(url: string)
  {
    Contains(url, "viewFile") || Contains(url, "viewer.html") || Contains(url, "pdfjs")
  }

  /** `/picture-in-picture/` */
  predicate VideoStrongAllow(allow: string)
  {
    Contains(allow, "picture-in-picture")
  }

  /** `/\bvideo\b|video.player|media.player/` */
  predicate VideoTitle(text: string)
  {
    exists i :: 0 <= i <= |text| &&
      (WholeWordAt(text, "video", i) || JoinedAt(text, "video", "player", i) || JoinedAt(text, "media", "player", i))
  }

  /** `/autoplay/` */
  predicate VideoAutoplay(allow: string)
  {
    Contains(allow, "autoplay")
  }

  /** `/\/embed\/|\/player\/|\/video\/|\/watch|\/stream\/|\/lecture\/|\/media\//` */
  predicate VideoPath(path: string)
  {
    Contains(path, "/embed/") || Contains(path, "/player/") || Contains(path, "/video/")
    || Contains(path, "/watch") || Contains(path, "/stream/") || Contains(path, "/lecture/")
    || Contains(path, "/media/")
  }

  /** `/video|player/` */
  predicate VideoClassId(classAndId: string)
  {
    Contains(classAndId, "video") || Contains(classAndId, "player")
  }

  /* ---- Host lists ---- */

  /** Hosts the gate never touches. The shipped list is empty. */
  const ExcludedHosts: seq<string> := []

  const KnownHosts: seq<string> := [
    "avenue.mcmaster.ca",
    "avenue.cllmcmaster.ca",
    "brightspace.com",
    "elearningontario.ca",
    "desire2learn.com",
    "elearn.ucalgary.ca",
    "d2l.bowvalleycollege.ca",
    "d2l.cbe.ab.ca",
    "mylearningspace.wlu.ca",
    "fanshaweonline.ca",
    "myhome.hwdsb.on.ca"
  ]

  /** The two built-in host lists, grouped so that the gate can be stated for
      any lists; `Shipped` is the extension's own. */
  datatype HostLists = HostLists(known: seq<string>, excluded: seq<string>)

  const Shipped := HostLists(KnownHosts, ExcludedHosts)

  /** With the shipped configuration no hostname is excluded. */
  lemma NoHostIsExcluded(hostname: string)
    ensures !MatchesAny(hostname, ExcludedHosts)
  {
  }

  /* ---- Reading stored settings ---- */

  /** Document dark mode from a storage result: the current key decides
      whenever it is present; only when it is absent does the legacy key. */
  function ResolveDocumentDarkMode(result: map<string, Value>): (r: bool)
    ensures DocumentDarkModeKey in result ==> (r <==> result[DocumentDarkModeKey] == Bool(true))
    ensures DocumentDarkModeKey !in result ==> (r <==> Lookup(result, PdfDarkModeKey) == Some(Bool(true)))
  {
    if Lookup(result, DocumentDarkModeKey).Some? then
      Lookup(result, DocumentDarkModeKey) == Some(Bool(true))
    else
      Lookup(result, PdfDarkModeKey) == Some(Bool(true))
  }

  /** A stored current key overrides the legacy key, even when it says false. */
  lemma CurrentKeyOverridesLegacy(result: map<string, Value>)
    requires Lookup(result, DocumentDarkModeKey) == Some(Bool(false))
    requires Lookup(result, PdfDarkModeKey) == Some(Bool(true))
    ensures !ResolveDocumentDarkMode(result)
  {
  }

  /** Writing the current key and reading it back gives the value written,
      whatever the legacy key holds. */
  lemma CurrentKeyRoundTrip(result: map<string, Value>, b: bool)
    ensures ResolveDocumentDarkMode(result[DocumentDarkModeKey := Bool(b)]) == b
  {
  }

  /** A user who only ever wrote the legacy key keeps that preference. */
  lemma LegacyKeyRoundTrip(result: map<string, Value>, b: bool)
    requires DocumentDarkModeKey !in result
    ensures ResolveDocumentDarkMode(result[PdfDarkModeKey := Bool(b)]) == b
  {
  }

  /** The scripts the gate asks the service worker to inject, in order. */
  const ContentScripts: seq<string> := [
    "content/detection.js",
    "content/video.js",
    "content/shadow-dom.js",
    "content/dark-mode-core.js",
    "content/main.js"
  ]

  /** The keys fetched in the single settings read: each setting's key once,
      with the legacy key right after the key that supersedes it. */
  function AllReadKeys(): (keys: seq<string>)
    ensures |keys| == 5
    ensures forall i, j :: 0 <= i < j < |keys| ==> keys[i] != keys[j]
    ensures forall k :: k in keys <==>
      k in {DarkModeKey, DocumentDarkModeKey, PdfDarkModeKey, VideoDarkModeKey, CustomDomainsKey}
    ensures keys[1] == DocumentDarkModeKey && keys[2] == PdfDarkModeKey
  {
    [DarkModeKey, DocumentDarkModeKey, PdfDarkModeKey, VideoDarkModeKey, CustomDomainsKey]
  }
}
