# D2L Dark Mode — a verified model of the content-script core

D2L Dark Mode is a browser extension that darkens Brightspace (D2L) learning
pages. It inverts the page with a CSS filter and counter-inverts media so that
pictures and videos keep their colours. This project models, in Dafny, the
decision and state logic of its content scripts and proves properties of that
model:

- **Host rule and configuration** (`hosts.dfy`, `config.dfy`, `values.dfy`,
  `text.dfy`). The "exact host or dot-suffix" rule is written once. The
  configuration covers the storage keys, the defaults, the marker classes, the
  URL and attribute patterns and the host lists. It also covers the legacy-key
  fallback for document dark mode and the list of keys fetched in one read.
  Stored values are JavaScript values, read by strict comparison or by
  truthiness.
- **Brightspace detection** (`detection.dfy`). The fast check, the deferred DOM
  selector and the cross-origin test are modelled. `initIfBrightspace` returns
  when its callback runs: now, once the DOM is ready, or never.
- **The gate** (`gate.dfy`). The document-start script is a pure function. It
  takes what the frame sees and returns the ordered list of its effects: the
  class added or removed, the detection attribute, the inject request and the
  storage reads.
- **The engine** (`engine.dfy`). This covers the frame-role decision
  `shouldApplyFilter` and a `Page` class. The class holds `D2L.state`, the root
  and body classes, the stylesheet link, the shadow propagator and the
  document's iframes. Enable, disable and document-mode updates change them in
  place.
- **Video iframes** (`video.dfy`). The tiered classifier is a predicate over
  the iframe's attributes, also proved equal to an ordered rule list. The
  counter-inversion filter is an `Iframe` class updated in place.
- **Shadow DOM** (`shadow.dfy`). Shadow roots form a tree of objects, each with
  its adopted sheets and its observed flag. A `Propagator` object holds the
  script's private state: the observer set, the document observer and the
  rescan interval. The walks that add and remove the shared sheet are recursive
  methods with loops.
- **The entry script** (`orchestrator.dfy`). This covers the run-once guard,
  the decoding of the settings read into `D2L.state`, and the storage-change
  listener that dispatches to the engine.

Regular expressions become substring tests over the pattern's literal
alternatives. `VIDEO_TITLE`'s `\b` is an ASCII word boundary, and its `.` is any
character except a line terminator. `toLowerCase` is modelled on ASCII letters.

A few facts about the code shape the model:

- The video classifier tests the title and aria-label before the
  content-viewer exclusion (`encrypted-media` with `clipboard-write`)
  (content/video.js:25-33).
- The gate's fast match tests the version attribute, the known hosts and the
  parent, but not the `/d2l/` URL path (content/gate.js:37-55).
- The shipped excluded-host list is empty (shared/config.js:59-60).
- The gate never sees a user exclusion (see Findings).
- The detection attribute is always set to `"true"` (content/gate.js:75).
- The engine re-applies iframe filters but never clears a filter it set
  earlier: no script of the extension defines the clean-up helpers that
  disable calls (see Left out).

## Model

| member | source | states |
|---|---|---|
| Values.Truthy | content/main.js:29-30 | An undefined value, `null` and `false` are falsy. `true` and every list are truthy. |
| Values.ListOrEmpty | content/gate.js:84 | `result[key] \|\| []` gives the stored list. Anything falsy gives the empty list. |
| Text.Lower | content/video.js:25 | Lower-casing keeps the length and leaves no upper-case ASCII letter. Every other character stays as it is. |
| Hosts.MatchesHost | content/detection.js:20 | The entry itself matches, and every matching hostname ends with the entry. |
| Hosts.MatchesAny | content/detection.js:19-21 | An empty list matches no hostname, and a hostname on the list matches. |
| Hosts.MatchesHostIff | content/detection.js:20 | A hostname matches an entry iff it is the entry, or some labels followed by "." and the entry. |
| Hosts.SubdomainMatches | content/gate.js:32-39 | A subdomain of a matching hostname also matches. |
| Hosts.NotALabelSuffix | content/detection.js:19-20 | `xbrightspace.com` does not match `brightspace.com`, and `school.brightspace.com` does. |
| Config.NoHostIsExcluded | shared/config.js:59-60 | With the shipped configuration, no hostname is on the built-in excluded list. |
| Config.ResolveDocumentDarkMode | shared/config.js:87-92 | If the current key is present, the result is true iff it holds exactly `true`. Otherwise the result is true iff the legacy key holds exactly `true`. |
| Config.CurrentKeyOverridesLegacy | shared/config.js:88-90 | A stored `false` under the current key wins over a legacy `true`. |
| Config.CurrentKeyRoundTrip | shared/config.js:88-90 | Storing a boolean under the current key and resolving gives that boolean back, whatever the legacy key holds. |
| Config.LegacyKeyRoundTrip | shared/config.js:91 | When the current key is absent, a legacy boolean is resolved as stored. |
| Config.AllReadKeys | shared/config.js:107-115 | Returns five distinct keys: dark, document, legacy pdf, video and custom domains. The legacy key comes right after the document key. |
| Detection.IsBrightspace | content/detection.js:15-22 | Each signal alone suffices: the `/d2l/` path, the version attribute, or a known host. Every brightspace.com subdomain counts as known. |
| Detection.IsBrightspaceDeferred | content/detection.js:27-29 | An empty document never matches. A `d2l-navigation` element or a `d2l` meta tag anywhere in the document matches. |
| Detection.InitIfBrightspace | content/detection.js:50-75 | The fast check or a custom domain calls back at once. The call is deferred to DOMContentLoaded only while the document is loading, and never in a cross-origin child. A loaded document the selector matches is called at once. |
| Detection.IsCrossOriginChild | content/detection.js:35-43 | False for the top window. Otherwise true exactly when the parent document cannot be read. |
| Detection.CallbackCount | content/detection.js:50-75 | The callback runs at most once: once when it is called at once, never when it is not called. |
| Detection.InitCallbackIff | content/detection.js:50-75 | The callback runs exactly once iff one of these holds: the fast check or a custom domain matches; or the frame is not a cross-origin child and the deferred selector matches the document (at DOMContentLoaded when the document is still loading). It never runs more than once. |
| Detection.FastOrCustomCallsNow | content/detection.js:53-61 | The fast check or a custom-domain match calls back synchronously. |
| Detection.CrossOriginChildNeverCalls | content/detection.js:63-65 | A cross-origin child that fails both synchronous checks never calls back. |
| Detection.PathSignatureSuffices | content/detection.js:17 | A URL containing `/d2l/` passes the fast check. |
| Gate.CheckExcludedThenInject | content/gate.js:67-77 | The inject request is sent iff the hostname is not excluded. It is sent iff the detection attribute is set, and it comes last. |
| Gate.TryDomThenCustomDomains | content/gate.js:90-110 | The slow path always reads storage first. It injects only when the selector or a custom domain matches. |
| Gate.Run | content/gate.js:16-117 | The gate's effect list has at most four entries. The inject request, when there is one, is the last effect. |
| Gate.RunAsWritten | content/gate.js:79-110 | As shipped, the gate never removes a class, because no host is ever found excluded. |
| Gate.RunCorrected | content/gate.js:67-110 | Reading the exclusions under their settings key changes nothing for a host the user has not excluded. |
| Gate.InjectsIff | content/gate.js:16-117 | The gate sends the inject request exactly when an independent decision holds: for an about: frame, an active parent; otherwise no exclusion, and a fast match or (not cross-origin and the selector or a custom domain matches). |
| Gate.AboutFrameStopsEarly | content/gate.js:16-27 | An about: frame adds ACTIVE and sends the request iff its parent is readable and active. It reads no storage and sets no attribute. |
| Gate.BuiltInExcludedHostUntouched | content/gate.js:32-35 | A host on the built-in excluded list produces no effect at all. |
| Gate.FastMatchMarksRootFirst | content/gate.js:79-85 | On the fast path, ACTIVE is added before the storage read is issued. |
| Gate.NoEarlyClassWithoutFastMatch | content/gate.js:42-55 | Without a fast match, the gate never adds ACTIVE. |
| Gate.CrossOriginChildExits | content/gate.js:59-65 | A cross-origin child without a fast match produces no effect. |
| Gate.ExcludedHostRevertsActive | content/gate.js:68-73 | A user-excluded host ends without ACTIVE. It is neither marked detected nor injected. |
| Gate.NotExcludedHostIsInjected | content/gate.js:75-76 | A host that is not excluded is marked `data-d2l-detected` and then the inject request is sent. |
| Gate.SlowPathNeedsSelectorOrCustomDomain | content/gate.js:90-110 | Off the fast path, with neither the selector nor a custom domain matching, the only effect is the combined storage read. |
| Gate.UserExclusionWins | content/gate.js:67-73 | Reading the exclusions under their settings key, an excluded host is never injected and ends without ACTIVE. |
| Gate.AsWrittenIgnoresExclusions | content/gate.js:83-84 | As shipped, the gate injects exactly as if the exclusion list were empty, and never removes ACTIVE. |
| Gate.AsWrittenInjectsExcludedHost | content/gate.js:93-100 | A known host that the user excluded is injected as shipped, and not by the corrected gate. |
| Engine.ShouldApplyFilter | content/dark-mode-core.js:25-58 | True for the top window, for an unreadable parent and for a frameset parent. False for a non-frameset parent that carries TOP, NESTED or ACTIVE. |
| Engine.ShouldApplyFilterIff | content/dark-mode-core.js:33-54 | Outside framesets, a same-origin child applies the filter iff its parent carries no marker class and fails the fast Brightspace check. |
| Engine.FramesetWins | content/dark-mode-core.js:30-31 | A frameset parent gives true, even when marker classes or Brightspace signals are present. |
| Engine.GateParentMatchIsNotRoot | content/dark-mode-core.js:36-48 | A child that the gate matched through its parent is never the effective root, unless that parent is a frameset. |
| Engine.CrossOriginChildIsRoot | content/dark-mode-core.js:55-57 | A frame whose parent cannot be read is its own effective root. |
| Engine.IsDocumentViewer | content/dark-mode-core.js:66-68 | A URL is a document viewer iff it contains `viewFile`, `viewer.html` or `pdfjs`. |
| Engine.RootClassesAfterEnable | content/dark-mode-core.js:92-97 | ACTIVE is always added. TOP and NESTED are added in the effective root. Nothing is removed, and no other class is added. |
| Engine.RootClassesAfterDisable | content/dark-mode-core.js:117 | The four marker classes are gone, and every other class is kept. |
| Engine.RootClassesAfterDisableAsWritten | content/dark-mode-core.js:117 | The call as written removes the four markers and a class named "undefined", and keeps every other class. |
| Engine.DisableAsWrittenDropsPageClass | content/dark-mode-core.js:117 | A page class "undefined" is removed as written and kept by the intended removal. |
| Engine.DisableAsWrittenAgreesOtherwise | content/dark-mode-core.js:117 | The two removals agree on every page without that class. |
| Engine.DisableUndoesEnable | content/dark-mode-core.js:89-117 | On any root, disable after enable leaves exactly what disable alone leaves, even when the gate or the document mode added markers first. A root without markers is restored. |
| Engine.EnableIdempotent | content/dark-mode-core.js:92-97 | Enabling twice gives the same root classes as enabling once. |
| Engine.RootClassesAfterDocDark | content/dark-mode-core.js:74-78 | DOC_DARK is present iff document dark mode is on and the URL is a viewer URL. No other class changes. |
| Engine.DocDarkCommutesWithEnable | content/dark-mode-core.js:73-97 | The document class and the enable classes can be applied in either order. |
| Engine.LinksAfterInject | content/dark-mode-core.js:133-142 | After injection, at least one link has the id. An existing link means nothing is added. |
| Engine.LinksAfterRemove | content/dark-mode-core.js:147-150 | Exactly one element with the id is removed when there is one. |
| Engine.StylesheetLinkRoundTrip | content/dark-mode-core.js:133-150 | Injection is idempotent, and removal undoes injection into a page without the link. A unique link stays unique. |
| Engine.Page.constructor | content/dark-mode-core.js:13-18 | The state starts with dark mode on, document and video dark off and not initialised. `isEffectiveRoot` is computed once from the parent. |
| Engine.Page.InjectDarkModeStylesheet | content/dark-mode-core.js:133-142 | The link count becomes `LinksAfterInject` of the old count. |
| Engine.Page.RemoveDarkModeStylesheet | content/dark-mode-core.js:147-150 | The link count becomes `LinksAfterRemove` of the old count. |
| Engine.Page.ApplyDocDarkMode | content/dark-mode-core.js:73-84 | The root's DOC_DARK follows the setting. Outside the effective root, the shared sheet is rebuilt with `canvas` only while document dark is off. It uses the corrected builder, which also drops `video` while video dark is on (see Findings and Left out). In the effective root, the sheet is left as it is. |
| Engine.Page.MarkEnabled | content/dark-mode-core.js:90-105 | Injects the link once and adds the enable classes. ACTIVE goes to the body, or a listener adds it once the body exists. |
| Engine.Page.Enable | content/dark-mode-core.js:89-110 | Does what `MarkEnabled` does. It also starts the shadow observer: every reached root gets the sheet and is flagged observed. Video iframes get the mode's filter. Observers stay registered. |
| Engine.Page.Disable | content/dark-mode-core.js:115-128 | One link is removed and the corrected class removal is applied (see Findings and Left out). ACTIVE leaves the body if the body exists. Every observer is disconnected and the interval cleared. Every reached root loses the shared sheet and its observed flag. |
| Engine.Page.OnDomContentLoaded | content/dark-mode-core.js:102-104 | Once the body exists, pending listeners add ACTIVE to it, even if dark mode was disabled in the meantime. |
| Engine.Page.RescanTick | content/shadow-dom.js:62-65 | While the interval runs, a tick walks every shadow root and re-applies the video mode; observers are only added. With the interval stopped, no root, observer or filter changes. |
| Video.IsVideoIframe | content/video.js:16-53 | Without a strong or title signal, an iframe is video only if it allows fullscreen and lacks the content viewer's policy. |
| Video.ClassifierIsRuleCascade | content/video.js:16-53 | The classifier equals the verdict of the first rule that fires in its ordered rule list. |
| Video.VideoIff | content/video.js:16-53 | An iframe is video iff a strong or title signal holds, or (no viewer signature and fullscreen allowed and an autoplay, path or class/id hint). |
| Video.PictureInPictureWins | content/video.js:22 | An `allow` containing `picture-in-picture` is video, whatever else holds. |
| Video.TitleBeatsViewerSignature | content/video.js:25-33 | A title signal classifies as video even with the content-viewer allow policy. |
| Video.ViewerSignatureRejects | content/video.js:33 | The content-viewer policy without an earlier signal is not video. |
| Video.NoFullscreenRejects | content/video.js:36-37 | Without an earlier signal and without allowfullscreen, the iframe is not video. |
| Video.FullscreenNeedsOneHint | content/video.js:39-52 | With fullscreen allowed and no earlier verdict, the iframe is video iff autoplay, a video path or a class/id hint holds. |
| Video.UnparseableSrcSkipsPathOnly | content/video.js:43-46 | An src the URL constructor rejects skips only the path test. |
| Video.Examples | content/video.js:22-52 | A bare picture-in-picture iframe is video. An /embed/ src is video with allowfullscreen and not video without it. |
| Video.FilterAfter | content/video.js:70-77 | With dark mode off, the filter is unchanged. Otherwise it is removed iff video dark mode is on, and is the counter-inversion iff video dark mode is off. |
| Video.FilterAfterIdempotent | content/video.js:70-77 | Applying the mode twice equals applying it once. |
| Video.ApplyVideoModeToIframe | content/video.js:70-77 | The iframe's filter becomes `FilterAfter` of its old filter. |
| Video.ApplyVideoMode | content/video.js:58-65 | Each video iframe gets the mode's filter, and every other iframe keeps its style. |
| Shadow.BuildShadowMedia | content/dark-mode-core.js:82 | The media list holds `canvas` iff canvas is included and `video` iff video is included. It always starts with `img` and ends with `picture`. |
| Shadow.BuildShadowMediaAsWritten | content/shadow-dom.js:25-26 | The declared one-flag builder lists `canvas` iff asked, and always lists `video`. |
| Shadow.AsWrittenAlwaysIncludesVideo | content/shadow-dom.js:25-26 | The declared builder is the two-flag builder with video always on. |
| Shadow.SharedSheetIgnoresVideoFlag | content/dark-mode-core.js:82 | With video dark mode on, the shipped rebuild still counter-inverts `video`, where the two-flag builder does not. |
| Shadow.Inserted | content/shadow-dom.js:152-158 | After insertion the shared sheet is present. A list that already has it is unchanged. |
| Shadow.InsertedIdempotent | content/shadow-dom.js:152-158 | Inserting twice equals inserting once. |
| Shadow.InsertedKeepsOrder | content/shadow-dom.js:154-157 | The existing sheets stay first and in order. The shared sheet is appended last when it was absent. |
| Shadow.Removed | content/shadow-dom.js:175-178 | After removal the shared sheet is absent. A list without it is unchanged. |
| Shadow.RemovedKeepsOthers | content/shadow-dom.js:175-178 | Every other sheet keeps its number of occurrences. |
| Shadow.RemovedConcat | content/shadow-dom.js:175-178 | The filter keeps order: filtering a concatenation is concatenating the filtered parts. |
| Shadow.RemoveAfterInsert | content/shadow-dom.js:152-158 | Removal after insertion restores a list that had no shared sheet. |
| Shadow.InsertAfterRemove | content/shadow-dom.js:152-178 | Insertion after removal gives the other sheets in order, then the shared sheet. |
| Shadow.ReachClosed | content/shadow-dom.js:118-135 | Every root in the reach is well formed. The roots it hosts are reached too, so the walk covers roots nested at any depth. |
| Shadow.Propagator.constructor | content/shadow-dom.js:13-43 | The script starts with no observers and no interval. The shared sheet lists canvas and video. |
| Shadow.Propagator.InjectShadowStyles | content/shadow-dom.js:152-158 | The root's sheets become `Inserted` of the old sheets. |
| Shadow.Propagator.ObserveShadowRoot | content/shadow-dom.js:140-147 | An observer is added only for a root not yet flagged, and the root is then flagged. At most one observer per root, and only while flagged. |
| Shadow.Propagator.InjectAllShadowRoots | content/shadow-dom.js:118-135 | Every root reached from the hosted list gets the shared sheet and is flagged observed. Observers are only added, and stay registered one per root. |
| Shadow.Propagator.VisitRoot | content/shadow-dom.js:129-133 | One root and every root below it get the sheet and the flag. |
| Shadow.Propagator.ProcessRemoval | content/shadow-dom.js:175-180 | The root's sheets become `Removed` of the old sheets, and its flag is cleared. |
| Shadow.Propagator.RemoveAllShadowStyles | content/shadow-dom.js:164-173 | Every root reached loses the shared sheet and its observed flag. |
| Shadow.Propagator.VisitRemoval | content/shadow-dom.js:168-171 | One root and every root below it lose the sheet and the flag. |
| Shadow.Propagator.RemoveShadowStyles | content/shadow-dom.js:163-183 | The whole document's roots lose the shared sheet and their flags. |
| Shadow.Propagator.StartShadowObserver | content/shadow-dom.js:48-74 | Always walks the document. Creates the document observer only if none exists. Starts the interval only with a new document observer and only if none runs. |
| Shadow.Propagator.StopShadowObserver | content/shadow-dom.js:105-113 | Every observer is gone, the document observer is cleared and the interval is stopped. |
| Shadow.Propagator.ExpireRescan | content/shadow-dom.js:67-72 | After the timeout the interval no longer runs. |
| Orchestrator.DecodeSettings | content/main.js:17-19 | Dark mode is on unless stored as exactly `false`. Video dark is on only when stored as exactly `true`. Document dark comes from the legacy fallback. |
| Orchestrator.EncodeSettings | content/main.js:16-19 | The reference storage result holds exactly the three current keys, all among the keys the single read fetches. No script writes it in one piece. |
| Orchestrator.DecodeEncode | content/main.js:17-19 | Decoding stored booleans gives the settings back. |
| Orchestrator.DecodeEmptyIsDefaults | shared/config.js:22-27 | Empty storage decodes to the shipped defaults. |
| Orchestrator.DecodeReadsOnlyReadKeys | content/main.js:16-19 | Two storage results that agree on the fetched keys decode alike. |
| Orchestrator.LoadAndChangeReadDarkMode | content/main.js:17 | Load and change read booleans alike. A missing value means on at load and off in a change. |
| Orchestrator.Init | content/main.js:13-14 | The first run marks the frame initialised and registers one listener. Later runs change nothing. |
| Orchestrator.OnSettingsLoaded | content/main.js:16-23 | The state becomes the decoded settings. The document class and the shared sheet follow the document mode. With dark mode on, enable's full effect follows: root and body classes, link, observers, interval, every root's sheet and flag, and video filters. With dark mode off, body, observers, roots and filters are unchanged, and disable never runs. |
| Orchestrator.StoreSettings | content/main.js:17-21 | `D2L.state` takes the decoded settings, then the document class and the shared sheet follow them. |
| Orchestrator.NewFlag | content/main.js:29 | A changed setting takes the truthiness of its new value. A removed key reads as off, and an unchanged key keeps its value. |
| Orchestrator.OnChanged | content/main.js:25-42 | Outside `sync`, the page, the propagator, every shadow root and every iframe are unchanged. In `sync`, each changed flag takes its new value's truthiness, and the whole new state is stated as `OnSyncChanged` states it. |
| Orchestrator.OnSyncChanged | content/main.js:27-41 | Root classes are enable's or disable's, then DOC_DARK. The link follows enable or disable. The shared sheet is rebuilt on a document change using the video flag as it was before the event. Body, observers, interval and every root's sheet and flag follow enable or disable, or stay unchanged. Video iframes get the new mode exactly when dark mode ends on and its flag or the video flag changed. |
| Orchestrator.OnDarkModeChanged | content/main.js:28-31 | A dark-mode change stores the new flag. Then enable's or disable's full effect follows: classes, link, body, observers, interval, every root's sheet and flag, and video filters on enable only. Without a change, nothing changes. |
| Orchestrator.OnDisplayModesChanged | content/main.js:33-41 | The document branch, then the video branch. The shared sheet is rebuilt with the video flag as it was before this event. |
| Orchestrator.OnDocumentDarkModeChanged | content/main.js:33-36 | A document change stores the flag and re-applies the document mode. Only DOC_DARK changes among the root classes, and outside the effective root the shared sheet is rebuilt for the new flag. |
| Orchestrator.OnVideoDarkModeChanged | content/main.js:38-41 | A video change stores the flag. The video pass runs only while dark mode is on. |

## Left out

- `handleMutations` (content/shadow-dom.js:79-100) is left out, with the scheduling of MutationObserver callbacks. The model has no DOM insertions. The walk the callback performs is `InjectAllShadowRoots`, and the per-iframe step is `ApplyVideoModeToIframe`.
- Timers are left out. `setInterval` and `setTimeout` have no time here: a rescan tick is `RescanTick` and the timeout is `ExpireRescan`.
- `DOMContentLoaded` is not timed. It is the separate step `OnDomContentLoaded`, or the `domAtReady` input of detection and the gate.
- The host APIs are not modelled as calls:
  - `chrome.storage` results are map parameters, and change events are map parameters.
  - `chrome.runtime.sendMessage` is an effect record of the gate.
  - `chrome.runtime.getURL` is not modelled.
- The storage callback of the settings read runs as `OnSettingsLoaded` after `Init`. The model does not interleave it with other events.
- `startFullscreenHandler`, `stopFullscreenHandler`, `_cleanupIframeFilters` and `_clearFullscreenVideoFilter` are no-ops. No script of the extension defines them.
  - If they are really undefined when called, enabling would stop before the video pass.
  - Disabling would stop before `removeShadowStyles`.
  - The model does not capture that throw.
- The CSS text of `buildShadowCSS` is left out, including its popover rules. Only the media list is modelled.
- URL parsing is reduced to an input: the iframe's parsed path, or `None` when the constructor throws.
- JavaScript's `NaN` is not a modelled value.
- The gate's lookup under the undefined key is taken to find nothing. A value stored under the literal key "undefined" is not modelled.
- Engine.Page.ApplyDocDarkMode: the shared sheet uses the corrected two-flag builder. As shipped, `buildShadowCSS` ignores the video argument, so the sheet always lists `video` (content/dark-mode-core.js:82, content/shadow-dom.js:25-26). The handlers and `OnSettingsLoaded` inherit this. `Shadow.BuildShadowMediaAsWritten` models the shipped sheet.
- Engine.Page.Disable: the root classes use the corrected removal. As shipped, a root class named "undefined" is removed too (content/dark-mode-core.js:117). Disabling through a change event inherits this. `Engine.RootClassesAfterDisableAsWritten` models the shipped removal.
- Values.ListOrEmpty: a truthy stored value that is not a list reads as the empty list. In the source, the caller's `.some` would throw on it. This affects only the corrected gate's reading of exclusions and custom domains.
- Engine.Page: the `D2L.state` flags hold the truthiness of the stored value, not the raw value. Every reader of these flags tests truthiness.
- Engine.Page: the stylesheet link is modelled as the number of elements with its id. Its place in the head or root is not modelled.
- Shadow.Propagator.StartShadowObserver states "at most one observer per root, only while flagged" rather than exact observer counts.
- Shadow.Propagator.InjectAllShadowRoots and Shadow.Propagator.RemoveAllShadowStyles are modelled on well-founded nesting, with ghost depth bounds.
  - The walk's test of the start node's own `shadowRoot` is not modelled. Shadow roots and the document root never have one.
  - That test matters only for the mutation callback's added elements.
- The popup, the service worker, the icon generator and the superseded single-file `content/content.js` are not part of this model.

## Findings

| source | as written | input that shows it | evidently intended | confidence | as-written member | corrected member |
|---|---|---|---|---|---|---|
| content/gate.js:83-84 | The exclusions are read under `CFG.STORAGE_KEYS.EXCLUDED_DOMAINS`, which the key table (shared/config.js:13-19) does not define, so the list is always empty. | On `brightspace.com`, the user stored `excludedDomains: ["brightspace.com"]`. | The list is read under the settings key `excludedDomains`. An excluded host is not injected and loses ACTIVE. | high, not executed | Gate.AsWrittenInjectsExcludedHost | Gate.UserExclusionWins |
| content/dark-mode-core.js:117 | `classList.remove` also receives `CFG.CSS.VIDEO_DARK`, which is undefined. This removes the class named "undefined". | A root element with class "undefined". | Remove only ACTIVE, TOP, NESTED and DOC_DARK. | high, not executed | Engine.DisableAsWrittenDropsPageClass | Engine.RootClassesAfterDisable |
| content/dark-mode-core.js:82 | `buildShadowCSS` (content/shadow-dom.js:25) declares one parameter, so the `!videoDarkModeEnabled` argument is ignored and `video` is always listed. | A child frame with video dark mode on. | `video` is left out of the shared sheet while video dark mode is on. | medium, not executed | Shadow.SharedSheetIgnoresVideoFlag | Shadow.BuildShadowMedia |
