/** The content script's entry point: a run-once guard, the single settings
    read decoded into `D2L.state`, and the storage change listener that
    dispatches to the engine. */
module Orchestrator {
  import opened Values
  import Config
  import Video
  import Shadow
  import Engine

  /* ---- Decoding stored settings ---- */

  /** The three flags of `D2L.state` that come from storage. */
  datatype Settings = Settings(darkModeEnabled: bool, documentDarkModeEnabled: bool, videoDarkModeEnabled: bool)

  /** The storage callback's decoding: dark mode is on unless stored as exactly
      `false`, video dark mode only when stored as exactly `true`, and document
      dark mode by the legacy-key fallback. */
  function DecodeSettings(result: map<string, Value>): (s: Settings)
    ensures s.darkModeEnabled <==> Lookup(result, Config.DarkModeKey) != Some(Bool(false))
    ensures s.videoDarkModeEnabled <==> Lookup(result, Config.VideoDarkModeKey) == Some(Bool(true))
    ensures s.documentDarkModeEnabled == Config.ResolveDocumentDarkMode(result)
  {
    Settings(
      Lookup(result, Config.DarkModeKey) != Some(Bool(false)),
      Config.ResolveDocumentDarkMode(result),
      Lookup(result, Config.VideoDarkModeKey) == Some(Bool(true)))
  }

  /** A storage result holding each of the three settings as a boolean under
      its own key. No script of the extension writes this record in one piece
      (the popup writes the dark-mode and legacy document keys one at a time);
      it is the reference shape that `DecodeEncode` reads back. */
  function EncodeSettings(s: Settings): (result: map<string, Value>)
    ensures result.Keys == {Config.DarkModeKey, Config.DocumentDarkModeKey, Config.VideoDarkModeKey}
    ensures forall k :: k in result ==> k in Config.AllReadKeys()
  {
    map[Config.DarkModeKey := Bool(s.darkModeEnabled),
        Config.DocumentDarkModeKey := Bool(s.documentDarkModeEnabled),
        Config.VideoDarkModeKey := Bool(s.videoDarkModeEnabled)]
  }

  /** Reading back what was stored gives the same settings. */
  lemma DecodeEncode(s: Settings)
    ensures DecodeSettings(EncodeSettings(s)) == s
  {
    var result := EncodeSettings(s);
    assert Lookup(result, Config.DarkModeKey) == Some(Bool(s.darkModeEnabled));
    assert Lookup(result, Config.DocumentDarkModeKey) == Some(Bool(s.documentDarkModeEnabled));
    assert Lookup(result, Config.VideoDarkModeKey) == Some(Bool(s.videoDarkModeEnabled));
  }

  /** An empty storage decodes to the shipped defaults. */
  lemma DecodeEmptyIsDefaults()
    ensures DecodeSettings(map[]) ==
      Settings(Config.DEFAULTS.darkModeEnabled, Config.DEFAULTS.documentDarkModeEnabled,
               Config.DEFAULTS.videoDarkModeEnabled)
  {
  }

  /** Decoding depends only on the keys the single read fetches. */
  lemma DecodeReadsOnlyReadKeys(a: map<string, Value>, b: map<string, Value>)
    requires forall k :: k in Config.AllReadKeys() ==> Lookup(a, k) == Lookup(b, k)
    ensures DecodeSettings(a) == DecodeSettings(b)
  {
    var keys := Config.AllReadKeys();
    assert Lookup(a, keys[0]) == Lookup(b, keys[0]);
    assert Lookup(a, keys[1]) == Lookup(b, keys[1]);
    assert Lookup(a, keys[2]) == Lookup(b, keys[2]);
    assert Lookup(a, keys[3]) == Lookup(b, keys[3]);
  }

  /** The load path compares with `false`, the change path tests truthiness:
      the two read every boolean alike, but a missing value means "on" when
      the page loads and "off" when a change removes the key. */
  lemma LoadAndChangeReadDarkMode(b: bool)
    ensures DecodeSettings(map[Config.DarkModeKey := Bool(b)]).darkModeEnabled == Truthy(Some(Bool(b)))
    ensures DecodeSettings(map[]).darkModeEnabled && !Truthy(None)
  {
    assert Lookup(map[Config.DarkModeKey := Bool(b)], Config.DarkModeKey) == Some(Bool(b));
  }

  /* ---- The entry script ---- */

  /** One entry of a storage change event. A removed key has no new value. */
  datatype StorageChange = StorageChange(oldValue: Option<Value>, newValue: Option<Value>)

  /** The run-once guard: the first run marks the frame initialised and
      registers the change listener; later runs do nothing. The settings read
      it starts completes in `OnSettingsLoaded`. */
  method Init(page: Engine.Page) returns (started: bool)
    requires page.Valid()
    modifies page`initialized, page`changeListeners
    ensures started <==> !old(page.initialized)
    ensures page.initialized && page.changeListeners == 1
    ensures page.Valid()
  {
    if page.initialized {
      return false;
    }
    page.initialized := true;
    page.changeListeners := page.changeListeners + 1;
    return true;
  }

  /** The storage callback of the settings read: the state is decoded, the
      document mode applied, and dark mode enabled when it is on. Dark mode is
      never disabled here. */
  method OnSettingsLoaded(page: Engine.Page, result: map<string, Value>)
    requires page.Valid()
    requires forall r :: r in Shadow.Reach(page.shadow.docHosted) ==> allocated(r)
    modifies page`darkModeEnabled, page`documentDarkModeEnabled, page`videoDarkModeEnabled
    modifies page`stylesheetLinks, page`rootClasses, page`bodyClasses, page`pendingBodyActive
    modifies page.shadow`observers, page.shadow`documentObserver, page.shadow`rescanRunning, page.shadow`sharedMedia
    modifies Shadow.Reach(page.shadow.docHosted)`sheets, Shadow.Reach(page.shadow.docHosted)`observed
    modifies page.iframes`filter
    ensures page.Valid()
    ensures Settings(page.darkModeEnabled, page.documentDarkModeEnabled, page.videoDarkModeEnabled)
         == DecodeSettings(result)
    ensures page.rootClasses ==
      var docApplied := Engine.RootClassesAfterDocDark(old(page.rootClasses), page.documentDarkModeEnabled, page.href);
      if page.darkModeEnabled then Engine.RootClassesAfterEnable(docApplied, page.isEffectiveRoot) else docApplied
    ensures page.stylesheetLinks ==
      if page.darkModeEnabled then Engine.LinksAfterInject(old(page.stylesheetLinks)) else old(page.stylesheetLinks)
    ensures page.shadow.sharedMedia ==
      if page.isEffectiveRoot then old(page.shadow.sharedMedia)
      else Shadow.BuildShadowMedia(!page.documentDarkModeEnabled, !page.videoDarkModeEnabled)
    ensures page.darkModeEnabled ==>
      (if page.hasBody
       then page.bodyClasses == old(page.bodyClasses) + {Config.Active} && page.pendingBodyActive == old(page.pendingBodyActive)
       else page.bodyClasses == old(page.bodyClasses) && page.pendingBodyActive == old(page.pendingBodyActive) + 1)
    ensures page.darkModeEnabled ==>
      page.shadow.documentObserver && old(page.shadow.observers) <= page.shadow.observers
      && page.shadow.rescanRunning == (old(page.shadow.rescanRunning) || !old(page.shadow.documentObserver))
    ensures page.darkModeEnabled ==> forall r :: r in Shadow.Reach(page.shadow.docHosted) ==>
      r.observed && r.sheets == Shadow.Inserted(old(r.sheets))
    ensures !page.darkModeEnabled ==>
      page.bodyClasses == old(page.bodyClasses) && page.pendingBodyActive == old(page.pendingBodyActive)
      && page.shadow.observers == old(page.shadow.observers) && page.shadow.documentObserver == old(page.shadow.documentObserver)
      && page.shadow.rescanRunning == old(page.shadow.rescanRunning)
      && forall r :: r in Shadow.Reach(page.shadow.docHosted) ==> r.sheets == old(r.sheets) && r.observed == old(r.observed)
    ensures forall f :: f in page.iframes ==>
      f.filter == if page.darkModeEnabled then Video.ModeApplied(f, old(f.filter), true, page.videoDarkModeEnabled)
                  else old(f.filter)
  {
    StoreSettings(page, DecodeSettings(result));
    if page.darkModeEnabled {
      page.Enable();
    }
  }

  /** The first half of the storage callback: `D2L.state` takes the decoded
      settings and the document mode is applied. */
  method StoreSettings(page: Engine.Page, s: Settings)
    requires page.Valid()
    modifies page`darkModeEnabled, page`documentDarkModeEnabled, page`videoDarkModeEnabled
    modifies page`rootClasses, page.shadow`sharedMedia
    ensures page.Valid()
    ensures Settings(page.darkModeEnabled, page.documentDarkModeEnabled, page.videoDarkModeEnabled) == s
    ensures page.rootClasses == Engine.RootClassesAfterDocDark(old(page.rootClasses), s.documentDarkModeEnabled, page.href)
    ensures page.shadow.sharedMedia ==
      if page.isEffectiveRoot then old(page.shadow.sharedMedia)
      else Shadow.BuildShadowMedia(!s.documentDarkModeEnabled, !s.videoDarkModeEnabled)
  {
    page.darkModeEnabled := s.darkModeEnabled;
    page.documentDarkModeEnabled := s.documentDarkModeEnabled;
    page.videoDarkModeEnabled := s.videoDarkModeEnabled;
    assert page.Valid();
    page.ApplyDocDarkMode();
  }

  /** The change listener: changes outside the `sync` area are ignored; each
      changed setting is stored by truthiness of its new value and acted on,
      dark mode first, then document dark mode, then video dark mode. */
  method OnChanged(page: Engine.Page, changes: map<string, StorageChange>, namespace: string)
    requires page.Valid()
    requires forall r :: r in Shadow.Reach(page.shadow.docHosted) ==> allocated(r)
    modifies page`darkModeEnabled, page`documentDarkModeEnabled, page`videoDarkModeEnabled
    modifies page`stylesheetLinks, page`rootClasses, page`bodyClasses, page`pendingBodyActive
    modifies page.shadow`observers, page.shadow`documentObserver, page.shadow`rescanRunning, page.shadow`sharedMedia
    modifies Shadow.Reach(page.shadow.docHosted)`sheets, Shadow.Reach(page.shadow.docHosted)`observed
    modifies page.iframes`filter
    ensures page.Valid()
    ensures namespace != "sync" ==>
      unchanged(page, page.shadow) && unchanged(Shadow.Reach(page.shadow.docHosted)) && unchanged(page.iframes)
    ensures namespace == "sync" ==>
      page.darkModeEnabled == NewFlag(changes, Config.DarkModeKey, old(page.darkModeEnabled))
      && page.documentDarkModeEnabled == NewFlag(changes, Config.DocumentDarkModeKey, old(page.documentDarkModeEnabled))
      && page.videoDarkModeEnabled == NewFlag(changes, Config.VideoDarkModeKey, old(page.videoDarkModeEnabled))
    ensures namespace == "sync" ==>
      var afterDark :=
        if Config.DarkModeKey !in changes then old(page.rootClasses)
        else if page.darkModeEnabled then Engine.RootClassesAfterEnable(old(page.rootClasses), page.isEffectiveRoot)
        else Engine.RootClassesAfterDisable(old(page.rootClasses));
      page.rootClasses ==
        if Config.DocumentDarkModeKey in changes
        then Engine.RootClassesAfterDocDark(afterDark, page.documentDarkModeEnabled, page.href)
        else afterDark
    ensures namespace == "sync" ==>
      page.stylesheetLinks ==
        if Config.DarkModeKey !in changes then old(page.stylesheetLinks)
        else if page.darkModeEnabled then Engine.LinksAfterInject(old(page.stylesheetLinks))
        else Engine.LinksAfterRemove(old(page.stylesheetLinks))
    ensures namespace == "sync" ==>
      page.shadow.sharedMedia ==
        if Config.DocumentDarkModeKey in changes && !page.isEffectiveRoot
        then Shadow.BuildShadowMedia(!page.documentDarkModeEnabled, !old(page.videoDarkModeEnabled))
        else old(page.shadow.sharedMedia)
    ensures namespace == "sync" && Config.DarkModeKey in changes && page.darkModeEnabled ==>
      (if page.hasBody
       then page.bodyClasses == old(page.bodyClasses) + {Config.Active} && page.pendingBodyActive == old(page.pendingBodyActive)
       else page.bodyClasses == old(page.bodyClasses) && page.pendingBodyActive == old(page.pendingBodyActive) + 1)
      && page.shadow.documentObserver && old(page.shadow.observers) <= page.shadow.observers
      && page.shadow.rescanRunning == (old(page.shadow.rescanRunning) || !old(page.shadow.documentObserver))
      && forall r :: r in Shadow.Reach(page.shadow.docHosted) ==> r.observed && r.sheets == Shadow.Inserted(old(r.sheets))
    ensures namespace == "sync" && Config.DarkModeKey in changes && !page.darkModeEnabled ==>
      page.bodyClasses == (if page.hasBody then old(page.bodyClasses) - {Config.Active} else old(page.bodyClasses))
      && page.pendingBodyActive == old(page.pendingBodyActive)
      && page.shadow.observers == multiset{} && !page.shadow.documentObserver && !page.shadow.rescanRunning
      && forall r :: r in Shadow.Reach(page.shadow.docHosted) ==> !r.observed && r.sheets == Shadow.Removed(old(r.sheets))
    ensures namespace == "sync" && Config.DarkModeKey !in changes ==>
      page.bodyClasses == old(page.bodyClasses) && page.pendingBodyActive == old(page.pendingBodyActive)
      && page.shadow.observers == old(page.shadow.observers) && page.shadow.documentObserver == old(page.shadow.documentObserver)
      && page.shadow.rescanRunning == old(page.shadow.rescanRunning)
      && forall r :: r in Shadow.Reach(page.shadow.docHosted) ==> r.sheets == old(r.sheets) && r.observed == old(r.observed)
    ensures namespace == "sync" ==> forall f :: f in page.iframes ==>
      f.filter ==
        if page.darkModeEnabled && (Config.DarkModeKey in changes || Config.VideoDarkModeKey in changes)
        then Video.ModeApplied(f, old(f.filter), true, page.videoDarkModeEnabled)
        else old(f.filter)
  {
    if namespace != "sync" {
      return;
    }
    OnSyncChanged(page, changes);
  }

  /** A change event in the `sync` area: dark mode first, then the document
      and video modes. */
  method OnSyncChanged(page: Engine.Page, changes: map<string, StorageChange>)
    requires page.Valid()
    requires forall r :: r in Shadow.Reach(page.shadow.docHosted) ==> allocated(r)
    modifies page`darkModeEnabled, page`documentDarkModeEnabled, page`videoDarkModeEnabled
    modifies page`stylesheetLinks, page`rootClasses, page`bodyClasses, page`pendingBodyActive
    modifies page.shadow`observers, page.shadow`documentObserver, page.shadow`rescanRunning, page.shadow`sharedMedia
    modifies Shadow.Reach(page.shadow.docHosted)`sheets, Shadow.Reach(page.shadow.docHosted)`observed
    modifies page.iframes`filter
    ensures page.Valid()
    ensures
      page.darkModeEnabled == NewFlag(changes, Config.DarkModeKey, old(page.darkModeEnabled))
      && page.documentDarkModeEnabled == NewFlag(changes, Config.DocumentDarkModeKey, old(page.documentDarkModeEnabled))
      && page.videoDarkModeEnabled == NewFlag(changes, Config.VideoDarkModeKey, old(page.videoDarkModeEnabled))
    ensures
      var afterDark :=
        if Config.DarkModeKey !in changes then old(page.rootClasses)
        else if page.darkModeEnabled then Engine.RootClassesAfterEnable(old(page.rootClasses), page.isEffectiveRoot)
        else Engine.RootClassesAfterDisable(old(page.rootClasses));
      page.rootClasses ==
        if Config.DocumentDarkModeKey in changes
        then Engine.RootClassesAfterDocDark(afterDark, page.documentDarkModeEnabled, page.href)
        else afterDark
    ensures
      page.stylesheetLinks ==
        if Config.DarkModeKey !in changes then old(page.stylesheetLinks)
        else if page.darkModeEnabled then Engine.LinksAfterInject(old(page.stylesheetLinks))
        else Engine.LinksAfterRemove(old(page.stylesheetLinks))
    ensures
      page.shadow.sharedMedia ==
        if Config.DocumentDarkModeKey in changes && !page.isEffectiveRoot
        then Shadow.BuildShadowMedia(!page.documentDarkModeEnabled, !old(page.videoDarkModeEnabled))
        else old(page.shadow.sharedMedia)
    ensures Config.DarkModeKey in changes && page.darkModeEnabled ==>
      (if page.hasBody
       then page.bodyClasses == old(page.bodyClasses) + {Config.Active} && page.pendingBodyActive == old(page.pendingBodyActive)
       else page.bodyClasses == old(page.bodyClasses) && page.pendingBodyActive == old(page.pendingBodyActive) + 1)
      && page.shadow.documentObserver && old(page.shadow.observers) <= page.shadow.observers
      && page.shadow.rescanRunning == (old(page.shadow.rescanRunning) || !old(page.shadow.documentObserver))
      && forall r :: r in Shadow.Reach(page.shadow.docHosted) ==> r.observed && r.sheets == Shadow.Inserted(old(r.sheets))
    ensures Config.DarkModeKey in changes && !page.darkModeEnabled ==>
      page.bodyClasses == (if page.hasBody then old(page.bodyClasses) - {Config.Active} else old(page.bodyClasses))
      && page.pendingBodyActive == old(page.pendingBodyActive)
      && page.shadow.observers == multiset{} && !page.shadow.documentObserver && !page.shadow.rescanRunning
      && forall r :: r in Shadow.Reach(page.shadow.docHosted) ==> !r.observed && r.sheets == Shadow.Removed(old(r.sheets))
    ensures Config.DarkModeKey !in changes ==>
      page.bodyClasses == old(page.bodyClasses) && page.pendingBodyActive == old(page.pendingBodyActive)
      && page.shadow.observers == old(page.shadow.observers) && page.shadow.documentObserver == old(page.shadow.documentObserver)
      && page.shadow.rescanRunning == old(page.shadow.rescanRunning)
      && forall r :: r in Shadow.Reach(page.shadow.docHosted) ==> r.sheets == old(r.sheets) && r.observed == old(r.observed)
    ensures forall f :: f in page.iframes ==>
      f.filter ==
        if page.darkModeEnabled && (Config.DarkModeKey in changes || Config.VideoDarkModeKey in changes)
        then Video.ModeApplied(f, old(f.filter), true, page.videoDarkModeEnabled)
        else old(f.filter)
  {
    OnDarkModeChanged(page, changes);
    OnDisplayModesChanged(page, changes);
  }

  /** The document and video branches of the listener, in that order. */
  method OnDisplayModesChanged(page: Engine.Page, changes: map<string, StorageChange>)
    requires page.Valid()
    modifies page`documentDarkModeEnabled, page`videoDarkModeEnabled, page`rootClasses, page.shadow`sharedMedia
    modifies page.iframes`filter
    ensures page.Valid()
    ensures page.documentDarkModeEnabled == NewFlag(changes, Config.DocumentDarkModeKey, old(page.documentDarkModeEnabled))
    ensures page.videoDarkModeEnabled == NewFlag(changes, Config.VideoDarkModeKey, old(page.videoDarkModeEnabled))
    ensures page.rootClasses ==
      if Config.DocumentDarkModeKey in changes
      then Engine.RootClassesAfterDocDark(old(page.rootClasses), page.documentDarkModeEnabled, page.href)
      else old(page.rootClasses)
    ensures page.shadow.sharedMedia ==
      if Config.DocumentDarkModeKey in changes && !page.isEffectiveRoot
      then Shadow.BuildShadowMedia(!page.documentDarkModeEnabled, !old(page.videoDarkModeEnabled))
      else old(page.shadow.sharedMedia)
    ensures forall f :: f in page.iframes ==>
      f.filter == if Config.VideoDarkModeKey in changes && page.darkModeEnabled
                  then Video.ModeApplied(f, old(f.filter), true, page.videoDarkModeEnabled)
                  else old(f.filter)
  {
    OnDocumentDarkModeChanged(page, changes);
    OnVideoDarkModeChanged(page, changes);
  }

  /** The value `D2L.state` holds for a setting after a change event: the
      truthiness of the new value when the setting changed. */
  function NewFlag(changes: map<string, StorageChange>, key: string, current: bool): (r: bool)
    ensures key !in changes ==> r == current
    ensures key in changes && changes[key].newValue.None? ==> !r
    ensures key in changes && changes[key].newValue == Some(Bool(true)) ==> r
  {
    if key in changes then Truthy(changes[key].newValue) else current
  }

  /** The dark-mode branch of the listener. */
  method OnDarkModeChanged(page: Engine.Page, changes: map<string, StorageChange>)
    requires page.Valid()
    requires forall r :: r in Shadow.Reach(page.shadow.docHosted) ==> allocated(r)
    modifies page`darkModeEnabled
    modifies page`stylesheetLinks, page`rootClasses, page`bodyClasses, page`pendingBodyActive
    modifies page.shadow`observers, page.shadow`documentObserver, page.shadow`rescanRunning
    modifies Shadow.Reach(page.shadow.docHosted)`sheets, Shadow.Reach(page.shadow.docHosted)`observed
    modifies page.iframes`filter
    ensures page.Valid()
    ensures page.darkModeEnabled == NewFlag(changes, Config.DarkModeKey, old(page.darkModeEnabled))
    ensures
      page.rootClasses ==
        if Config.DarkModeKey !in changes then old(page.rootClasses)
        else if page.darkModeEnabled then Engine.RootClassesAfterEnable(old(page.rootClasses), page.isEffectiveRoot)
        else Engine.RootClassesAfterDisable(old(page.rootClasses))
    ensures
      page.stylesheetLinks ==
        if Config.DarkModeKey !in changes then old(page.stylesheetLinks)
        else if page.darkModeEnabled then Engine.LinksAfterInject(old(page.stylesheetLinks))
        else Engine.LinksAfterRemove(old(page.stylesheetLinks))
    ensures Config.DarkModeKey in changes && page.darkModeEnabled ==>
      (if page.hasBody
       then page.bodyClasses == old(page.bodyClasses) + {Config.Active} && page.pendingBodyActive == old(page.pendingBodyActive)
       else page.bodyClasses == old(page.bodyClasses) && page.pendingBodyActive == old(page.pendingBodyActive) + 1)
      && page.shadow.documentObserver && old(page.shadow.observers) <= page.shadow.observers
      && page.shadow.rescanRunning == (old(page.shadow.rescanRunning) || !old(page.shadow.documentObserver))
      && forall r :: r in Shadow.Reach(page.shadow.docHosted) ==> r.observed && r.sheets == Shadow.Inserted(old(r.sheets))
    ensures Config.DarkModeKey in changes && !page.darkModeEnabled ==>
      page.bodyClasses == (if page.hasBody then old(page.bodyClasses) - {Config.Active} else old(page.bodyClasses))
      && page.pendingBodyActive == old(page.pendingBodyActive)
      && page.shadow.observers == multiset{} && !page.shadow.documentObserver && !page.shadow.rescanRunning
      && forall r :: r in Shadow.Reach(page.shadow.docHosted) ==> !r.observed && r.sheets == Shadow.Removed(old(r.sheets))
    ensures Config.DarkModeKey !in changes ==>
      page.bodyClasses == old(page.bodyClasses) && page.pendingBodyActive == old(page.pendingBodyActive)
      && page.shadow.observers == old(page.shadow.observers) && page.shadow.documentObserver == old(page.shadow.documentObserver)
      && page.shadow.rescanRunning == old(page.shadow.rescanRunning)
      && forall r :: r in Shadow.Reach(page.shadow.docHosted) ==> r.sheets == old(r.sheets) && r.observed == old(r.observed)
    ensures forall f :: f in page.iframes ==>
      f.filter ==
        if page.darkModeEnabled && Config.DarkModeKey in changes
        then Video.ModeApplied(f, old(f.filter), true, page.videoDarkModeEnabled)
        else old(f.filter)
  {
    if Config.DarkModeKey !in changes {
      return;
    }
    page.darkModeEnabled := Truthy(changes[Config.DarkModeKey].newValue);
    if page.darkModeEnabled {
      page.Enable();
    } else {
      page.Disable();
    }
  }

  /** The document-dark-mode branch of the listener. */
  method OnDocumentDarkModeChanged(page: Engine.Page, changes: map<string, StorageChange>)
    requires page.Valid()
    modifies page`documentDarkModeEnabled, page`rootClasses, page.shadow`sharedMedia
    ensures page.Valid()
    ensures page.documentDarkModeEnabled == NewFlag(changes, Config.DocumentDarkModeKey, old(page.documentDarkModeEnabled))
    ensures page.rootClasses ==
      if Config.DocumentDarkModeKey in changes
      then Engine.RootClassesAfterDocDark(old(page.rootClasses), page.documentDarkModeEnabled, page.href)
      else old(page.rootClasses)
    ensures forall x :: x != Config.DocDark ==> (x in page.rootClasses <==> x in old(page.rootClasses))
    ensures page.shadow.sharedMedia ==
      if Config.DocumentDarkModeKey in changes && !page.isEffectiveRoot
      then Shadow.BuildShadowMedia(!page.documentDarkModeEnabled, !page.videoDarkModeEnabled)
      else old(page.shadow.sharedMedia)
  {
    if Config.DocumentDarkModeKey !in changes {
      return;
    }
    page.documentDarkModeEnabled := Truthy(changes[Config.DocumentDarkModeKey].newValue);
    page.ApplyDocDarkMode();
  }

  /** The video-dark-mode branch of the listener: the video pass runs only
      while dark mode is on. */
  method OnVideoDarkModeChanged(page: Engine.Page, changes: map<string, StorageChange>)
    requires page.Valid()
    modifies page`videoDarkModeEnabled, page.iframes`filter
    ensures page.Valid()
    ensures page.videoDarkModeEnabled == NewFlag(changes, Config.VideoDarkModeKey, old(page.videoDarkModeEnabled))
    ensures forall f :: f in page.iframes ==>
      f.filter == if Config.VideoDarkModeKey in changes && page.darkModeEnabled
                  then Video.ModeApplied(f, old(f.filter), page.darkModeEnabled, page.videoDarkModeEnabled)
                  else old(f.filter)
  {
    if Config.VideoDarkModeKey !in changes {
      return;
    }
    page.videoDarkModeEnabled := Truthy(changes[Config.VideoDarkModeKey].newValue);
    if page.darkModeEnabled {
      Video.ApplyVideoMode(page.iframes, page.darkModeEnabled, page.videoDarkModeEnabled);
    }
  }
}
