/** The gatekeeper that runs on every page at document_start. It decides, with
    as little work as possible, whether the frame may be Brightspace, and if so
    marks the root early and asks the service worker to inject the heavy
    scripts. The script is modelled as a function from what the frame can
    observe to the ordered list of effects it has. */
module Gate {
  import opened Values
  import opened Hosts
  import opened Detection
  import Config

  /** The keys a storage read asks for. */
  datatype Request = ExcludedOnly | CustomAndExcluded

  datatype Effect =
    | AddClass(name: string)       // on the root element
    | RemoveClass(name: string)    // on the root element
    | SetDetected                  // data-d2l-detected="true" on the root element
    | SendInject(flagged: bool)    // the injectScripts message; `flagged` iff it carries d2lDetected: true
    | ReadStorage(request: Request)

  /** Everything the gate can observe. */
  datatype GateContext = GateContext(
    isAboutFrame: bool,           // location.protocol === 'about:'
    hostname: string,
    hasAppVersion: bool,          // the root element has data-app-version
    parent: ParentView,
    rootClasses: set<string>,     // this frame's root classes when the gate runs
    domAtReady: seq<Element>,     // the document once DOMContentLoaded has fired
    stored: map<string, Value>)   // sync storage when a storage callback runs

  /** An about: frame adopts dark mode when the document `window.parent`
      designates is readable and carries ACTIVE. For a top-level about: page
      `window.parent` is the page itself. */
  predicate ParentActive(ctx: GateContext)
  {
    match ctx.parent
    case TopWindow => Config.Active in ctx.rootClasses
    case CrossOrigin => false
    case SameOrigin(_, classes, _, _, _) => Config.Active in classes
  }

  /** A readable parent that is Brightspace or already marked. */
  predicate ParentMarksApp(parent: ParentView)
  {
    parent.SameOrigin? && (parent.hasAppVersion || Config.Active in parent.classes)
  }

  /** The synchronous match that needs neither storage nor messages. */
  predicate FastMatch(ctx: GateContext, lists: Config.HostLists)
  {
    ctx.hasAppVersion || MatchesAny(ctx.hostname, lists.known) || ParentMarksApp(ctx.parent)
  }

  predicate CustomMatch(ctx: GateContext)
  {
    MatchesAny(ctx.hostname, ListOrEmpty(Lookup(ctx.stored, Config.CustomDomainsKey)))
  }

  /** The user's excluded domains as the storage callback receives them, when
      they are read under `key` (`None`: the key is undefined). */
  function UserExcluded(ctx: GateContext, key: Option<string>): seq<string>
  {
    match key
    case None => []
    case Some(k) => ListOrEmpty(Lookup(ctx.stored, k))
  }

  /** `checkExcludedThenInject`: the inject request goes out exactly when the
      host is not excluded, always last, and only after the frame is marked
      detected. */
  function CheckExcludedThenInject(hostname: string, excluded: seq<string>): (r: seq<Effect>)
    ensures Sends(r) <==> !MatchesAny(hostname, excluded)
    ensures Sends(r) <==> SetDetected in r
    ensures 1 <= |r| <= 2 && forall i :: 0 <= i < |r| - 1 ==> !r[i].SendInject?
  {
    if MatchesAny(hostname, excluded) then [RemoveClass(Config.Active)]
    else
      var r := [SetDetected, SendInject(true)];
      assert r[1].SendInject?;
      r
  }

  /** `tryDOMThenCustomDomains`, run once the document is ready: it always
      reads storage first, and injects only on a selector or custom-domain
      match. */
  function TryDomThenCustomDomains(ctx: GateContext, excluded: seq<string>): (r: seq<Effect>)
    ensures |r| >= 1 && r[0].ReadStorage?
    ensures Sends(r) ==> IsBrightspaceDeferred(ctx.domAtReady) || CustomMatch(ctx)
  {
    if IsBrightspaceDeferred(ctx.domAtReady) then
      [ReadStorage(ExcludedOnly)] + CheckExcludedThenInject(ctx.hostname, excluded)
    else
      [ReadStorage(CustomAndExcluded)]
      + (if CustomMatch(ctx) then CheckExcludedThenInject(ctx.hostname, excluded) else [])
  }

  /** The whole gate script with built-in host lists `lists`, reading the
      user's exclusions under `excludedKey`. */
  function Run(ctx: GateContext, lists: Config.HostLists, excludedKey: Option<string>): (r: seq<Effect>)
    ensures |r| <= 4
    ensures forall i :: 0 <= i < |r| - 1 ==> !r[i].SendInject?
  {
    if ctx.isAboutFrame then
      if ParentActive(ctx) then [AddClass(Config.Active), SendInject(false)] else []
    else if MatchesAny(ctx.hostname, lists.excluded) then []
    else if FastMatch(ctx, lists) then
      [AddClass(Config.Active), ReadStorage(ExcludedOnly)]
      + CheckExcludedThenInject(ctx.hostname, UserExcluded(ctx, excludedKey))
    else if ctx.parent.CrossOrigin? then []
    else TryDomThenCustomDomains(ctx, UserExcluded(ctx, excludedKey))
  }

  /** The gate as shipped: the exclusion key is undefined. */
  function RunAsWritten(ctx: GateContext): (r: seq<Effect>)
    ensures forall i :: 0 <= i < |r| ==> !r[i].RemoveClass?
  {
    Run(ctx, Config.Shipped, Config.ExcludedDomainsKeyAsWritten)
  }

  /** The gate reading the user's exclusions under the settings key for them.
      It differs from the shipped gate only on hosts the user excluded. */
  function RunCorrected(ctx: GateContext): (r: seq<Effect>)
    ensures !MatchesAny(ctx.hostname, UserExcluded(ctx, Some(Config.ExcludedDomainsKey))) ==> r == RunAsWritten(ctx)
  {
    Run(ctx, Config.Shipped, Some(Config.ExcludedDomainsKey))
  }

  /* ---- Observing an effect list ---- */

  predicate Sends(effects: seq<Effect>)
  {
    exists i :: 0 <= i < |effects| && effects[i].SendInject?
  }

  predicate ReadsStorage(effects: seq<Effect>)
  {
    exists i :: 0 <= i < |effects| && effects[i].ReadStorage?
  }

  /** The root's classes after the effects, applied in order. */
  function RootAfter(effects: seq<Effect>, classes: set<string>): set<string>
  {
    if effects == [] then classes
    else
      var next := match effects[0]
        case AddClass(c) => classes + {c}
        case RemoveClass(c) => classes - {c}
        case _ => classes;
      RootAfter(effects[1..], next)
  }

  lemma {:induction false} SendsConcat(a: seq<Effect>, b: seq<Effect>)
    ensures Sends(a + b) <==> Sends(a) || Sends(b)
  {
    if Sends(a + b) {
      var i :| 0 <= i < |a + b| && (a + b)[i].SendInject?;
      if i >= |a| { assert b[i - |a|] == (a + b)[i]; }
    }
    if Sends(b) {
      var i :| 0 <= i < |b| && b[i].SendInject?;
      assert (a + b)[|a| + i] == b[i];
    }
    if Sends(a) {
      var i :| 0 <= i < |a| && a[i].SendInject?;
      assert (a + b)[i] == a[i];
    }
  }

  /* ---- The decision, stated independently of the effect list ---- */

  /** Whether the gate asks for the heavy scripts, given the user's exclusions. */
  predicate ShouldInject(ctx: GateContext, lists: Config.HostLists, excluded: seq<string>)
  {
    if ctx.isAboutFrame then ParentActive(ctx)
    else
      && !MatchesAny(ctx.hostname, lists.excluded)
      && !MatchesAny(ctx.hostname, excluded)
      && (FastMatch(ctx, lists)
          || (!ctx.parent.CrossOrigin? && (IsBrightspaceDeferred(ctx.domAtReady) || CustomMatch(ctx))))
  }

  /** The gate sends the inject request exactly when the decision says so. */
  lemma {:induction false} InjectsIff(ctx: GateContext, lists: Config.HostLists, excludedKey: Option<string>)
    ensures Sends(Run(ctx, lists, excludedKey)) <==> ShouldInject(ctx, lists, UserExcluded(ctx, excludedKey))
  {
    var excluded := UserExcluded(ctx, excludedKey);
    var effects := Run(ctx, lists, excludedKey);
    if ctx.isAboutFrame {
      if ParentActive(ctx) { assert effects[1].SendInject?; }
    } else if MatchesAny(ctx.hostname, lists.excluded) {
    } else if FastMatch(ctx, lists) {
      SendsConcat([AddClass(Config.Active), ReadStorage(ExcludedOnly)], CheckExcludedThenInject(ctx.hostname, excluded));
    } else if ctx.parent.CrossOrigin? {
    } else if IsBrightspaceDeferred(ctx.domAtReady) {
      SendsConcat([ReadStorage(ExcludedOnly)], CheckExcludedThenInject(ctx.hostname, excluded));
    } else {
      SendsConcat([ReadStorage(CustomAndExcluded)],
        if CustomMatch(ctx) then CheckExcludedThenInject(ctx.hostname, excluded) else []);
    }
  }

  /* ---- The cascade, step by step ---- */

  /** An about: frame stops before any host check: it marks itself and asks for
      injection iff its parent is readable and active, and never reads storage
      or sets the detection attribute. */
  lemma AboutFrameStopsEarly(ctx: GateContext, lists: Config.HostLists, excludedKey: Option<string>)
    requires ctx.isAboutFrame
    ensures Run(ctx, lists, excludedKey) ==
      if ParentActive(ctx) then [AddClass(Config.Active), SendInject(false)] else []
    ensures !ReadsStorage(Run(ctx, lists, excludedKey)) && SetDetected !in Run(ctx, lists, excludedKey)
  {
  }

  /** A host on the built-in excluded list is left entirely alone. */
  lemma BuiltInExcludedHostUntouched(ctx: GateContext, lists: Config.HostLists, excludedKey: Option<string>)
    requires !ctx.isAboutFrame && MatchesAny(ctx.hostname, lists.excluded)
    ensures Run(ctx, lists, excludedKey) == []
  {
  }

  /** On the fast path ACTIVE is added before the storage read is issued, so
      before any storage callback can run. */
  lemma FastMatchMarksRootFirst(ctx: GateContext, lists: Config.HostLists, excludedKey: Option<string>)
    requires !ctx.isAboutFrame && !MatchesAny(ctx.hostname, lists.excluded)
    requires FastMatch(ctx, lists)
    ensures var effects := Run(ctx, lists, excludedKey);
      |effects| >= 2 && effects[0] == AddClass(Config.Active) && effects[1] == ReadStorage(ExcludedOnly)
  {
  }

  /** Only the fast path adds ACTIVE early. */
  lemma NoEarlyClassWithoutFastMatch(ctx: GateContext, lists: Config.HostLists, excludedKey: Option<string>)
    requires !ctx.isAboutFrame && !FastMatch(ctx, lists)
    ensures AddClass(Config.Active) !in Run(ctx, lists, excludedKey)
  {
  }

  /** A cross-origin child that fails the fast match does nothing at all. */
  lemma CrossOriginChildExits(ctx: GateContext, lists: Config.HostLists, excludedKey: Option<string>)
    requires !ctx.isAboutFrame && !FastMatch(ctx, lists) && ctx.parent.CrossOrigin?
    ensures Run(ctx, lists, excludedKey) == []
  {
  }

  /** A user-excluded host loses ACTIVE again and is neither marked nor injected. */
  lemma ExcludedHostRevertsActive(hostname: string, excluded: seq<string>, classes: set<string>)
    requires MatchesAny(hostname, excluded)
    ensures var effects := CheckExcludedThenInject(hostname, excluded);
      !Sends(effects) && SetDetected !in effects && Config.Active !in RootAfter(effects, classes)
  {
    var effects := CheckExcludedThenInject(hostname, excluded);
    assert RootAfter(effects, classes) == RootAfter([], classes - {Config.Active});
  }

  /** A host that is not excluded is marked detected and then injected. */
  lemma NotExcludedHostIsInjected(hostname: string, excluded: seq<string>)
    requires !MatchesAny(hostname, excluded)
    ensures CheckExcludedThenInject(hostname, excluded) == [SetDetected, SendInject(true)]
  {
  }

  /** Off the fast path, a same-origin or top frame is injected only when the
      deferred selector or a custom domain matches. */
  lemma SlowPathNeedsSelectorOrCustomDomain(ctx: GateContext, lists: Config.HostLists, excludedKey: Option<string>)
    requires !ctx.isAboutFrame && !MatchesAny(ctx.hostname, lists.excluded)
    requires !FastMatch(ctx, lists) && !ctx.parent.CrossOrigin?
    requires !IsBrightspaceDeferred(ctx.domAtReady) && !CustomMatch(ctx)
    ensures Run(ctx, lists, excludedKey) == [ReadStorage(CustomAndExcluded)]
  {
  }

  /** Denylist precedence: a host the user excluded is never injected and ends
      without ACTIVE, whatever else matches it. */
  lemma UserExclusionWins(ctx: GateContext, lists: Config.HostLists)
    requires !ctx.isAboutFrame && Config.Active !in ctx.rootClasses
    requires MatchesAny(ctx.hostname, ListOrEmpty(Lookup(ctx.stored, Config.ExcludedDomainsKey)))
    ensures !Sends(Run(ctx, lists, Some(Config.ExcludedDomainsKey)))
    ensures Config.Active !in RootAfter(Run(ctx, lists, Some(Config.ExcludedDomainsKey)), ctx.rootClasses)
  {
    InjectsIff(ctx, lists, Some(Config.ExcludedDomainsKey));
    var effects := Run(ctx, lists, Some(Config.ExcludedDomainsKey));
    var classes := ctx.rootClasses;
    if MatchesAny(ctx.hostname, lists.excluded) || (!FastMatch(ctx, lists) && ctx.parent.CrossOrigin?) {
      assert effects == [];
    } else if FastMatch(ctx, lists) {
      assert effects == [AddClass(Config.Active), ReadStorage(ExcludedOnly), RemoveClass(Config.Active)];
      assert RootAfter(effects, classes) == RootAfter(effects[1..], classes + {Config.Active});
      assert RootAfter(effects[1..], classes + {Config.Active})
          == RootAfter(effects[2..], classes + {Config.Active});
      assert RootAfter(effects[2..], classes + {Config.Active})
          == RootAfter([], classes + {Config.Active} - {Config.Active});
    } else if IsBrightspaceDeferred(ctx.domAtReady) {
      assert effects == [ReadStorage(ExcludedOnly), RemoveClass(Config.Active)];
      assert RootAfter(effects, classes) == RootAfter(effects[1..], classes);
    } else if CustomMatch(ctx) {
      assert effects == [ReadStorage(CustomAndExcluded), RemoveClass(Config.Active)];
      assert RootAfter(effects, classes) == RootAfter(effects[1..], classes);
    } else {
      assert effects == [ReadStorage(CustomAndExcluded)];
      assert RootAfter(effects, classes) == RootAfter(effects[1..], classes);
    }
  }

  /** As shipped, the gate never sees a user exclusion: no stored list can stop
      an injection. */
  lemma AsWrittenIgnoresExclusions(ctx: GateContext)
    ensures Sends(RunAsWritten(ctx)) <==> ShouldInject(ctx, Config.Shipped, [])
    ensures RemoveClass(Config.Active) !in RunAsWritten(ctx)
  {
    InjectsIff(ctx, Config.Shipped, Config.ExcludedDomainsKeyAsWritten);
  }

  /** A known Brightspace host that the user has excluded is still injected by
      the gate as shipped, and is not by the corrected gate. */
  lemma AsWrittenInjectsExcludedHost()
    ensures var ctx := GateContext(false, "brightspace.com", false, TopWindow, {}, [],
                                   map[Config.ExcludedDomainsKey := List(["brightspace.com"])]);
      Sends(RunAsWritten(ctx)) && !Sends(RunCorrected(ctx))
  {
    var ctx := GateContext(false, "brightspace.com", false, TopWindow, {}, [],
                           map[Config.ExcludedDomainsKey := List(["brightspace.com"])]);
    assert MatchesHost(ctx.hostname, Config.KnownHosts[2]);
    assert MatchesHost(ctx.hostname, ["brightspace.com"][0]);
    AsWrittenIgnoresExclusions(ctx);
    UserExclusionWins(ctx, Config.Shipped);
  }
}
