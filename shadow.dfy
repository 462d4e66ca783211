/** Shadow-DOM propagation: the shared counter-inversion sheet adopted by
    every shadow root, the observers registered while walking the roots, and
    the walks that add and later remove the sheet. */
module Shadow {

  /* ---- The shared sheet's media list ---- */

  /** The media selector list of the shared sheet, in the order the rules list
      it. Only the presence of `canvas` and `video` varies. */
  function BuildShadowMedia(includeCanvas: bool, includeVideo: bool): (r: seq<string>)
    ensures "canvas" in r <==> includeCanvas
    ensures "video" in r <==> includeVideo
    ensures "img" in r && "picture" in r
    ensures r[0] == "img" && r[|r| - 1] == "picture"
  {
    ["img"] + (if includeVideo then ["video"] else []) + (if includeCanvas then ["canvas"] else []) + ["picture"]
  }

  /** `buildShadowCSS(includeCanvas)` as declared: one parameter, `video`
      always listed. */
  function BuildShadowMediaAsWritten(includeCanvas: bool): (r: seq<string>)
    ensures "canvas" in r <==> includeCanvas
    ensures "video" in r
  {
    if includeCanvas then ["img", "video", "canvas", "picture"] else ["img", "video", "picture"]
  }

  /** The declared builder is the two-flag builder with video always on. */
  lemma AsWrittenAlwaysIncludesVideo(includeCanvas: bool)
    ensures BuildShadowMediaAsWritten(includeCanvas) == BuildShadowMedia(includeCanvas, true)
  {
  }

  /** The child-frame rebuild passes `!videoDarkModeEnabled` as a second
      argument that the builder does not declare: with video dark mode on, the
      sheet still counter-inverts `video`, where the two-flag builder does not. */
  lemma SharedSheetIgnoresVideoFlag(documentDarkModeEnabled: bool)
    ensures "video" in BuildShadowMediaAsWritten(!documentDarkModeEnabled)
    ensures "video" !in BuildShadowMedia(!documentDarkModeEnabled, !true)
    ensures BuildShadowMediaAsWritten(!documentDarkModeEnabled) != BuildShadowMedia(!documentDarkModeEnabled, !true)
  {
  }

  /* ---- Adopted style sheets ---- */

  /** An adopted style sheet: the extension's shared sheet, or a page's own. */
  datatype Sheet = Shared | Other(id: nat)

  /** `injectShadowStyles` on a sheet list: the shared sheet is appended when
      it is absent, and the list is left as it is otherwise. */
  function Inserted(s: seq<Sheet>): (r: seq<Sheet>)
    ensures Shared in r
    ensures Shared in s ==> r == s
  {
    if Shared in s then s else s + [Shared]
  }

  /** Inserting twice is inserting once. */
  lemma InsertedIdempotent(s: seq<Sheet>)
    ensures Inserted(Inserted(s)) == Inserted(s)
  {
  }

  /** The existing sheets stay first and in order, and at most one sheet is
      added. */
  lemma InsertedKeepsOrder(s: seq<Sheet>)
    ensures |s| <= |Inserted(s)| <= |s| + 1
    ensures Inserted(s)[..|s|] == s
    ensures Shared !in s ==> Inserted(s)[|s|] == Shared
  {
  }

  /** The filter in `removeShadowStyles`: the list without the shared sheet. */
  function Removed(s: seq<Sheet>): (r: seq<Sheet>)
    ensures Shared !in r
    ensures Shared !in s ==> r == s
  {
    if s == [] then []
    else (if s[0] == Shared then [] else [s[0]]) + Removed(s[1..])
  }

  /** Every other sheet stays, as often as it was there. */
  lemma {:induction false} RemovedKeepsOthers(s: seq<Sheet>)
    ensures forall x :: x != Shared ==> multiset(Removed(s))[x] == multiset(s)[x]
    decreases |s|
  {
    if s != [] {
      RemovedKeepsOthers(s[1..]);
      assert s == [s[0]] + s[1..];
    }
  }

  /** The filter keeps order: it can be applied piecewise. */
  lemma {:induction false} RemovedConcat(a: seq<Sheet>, b: seq<Sheet>)
    ensures Removed(a + b) == Removed(a) + Removed(b)
    decreases |a|
  {
    if a == [] {
      assert a + b == b;
    } else {
      assert (a + b)[1..] == a[1..] + b;
      RemovedConcat(a[1..], b);
    }
  }

  /** Removing after inserting restores a list that had no shared sheet. */
  lemma RemoveAfterInsert(s: seq<Sheet>)
    requires Shared !in s
    ensures Removed(Inserted(s)) == s
  {
    RemovedConcat(s, [Shared]);
    assert Removed([Shared]) == [];
  }

  /** Inserting after removing puts the shared sheet last, after the other
      sheets in their original order. */
  lemma InsertAfterRemove(s: seq<Sheet>)
    ensures Inserted(Removed(s)) == Removed(s) + [Shared]
  {
  }

  /* ---- The tree of shadow roots ---- */

  /** A shadow root. `hosted` lists the shadow roots of the elements in this
      root's own tree (what `querySelectorAll('*')` finds), in document order.
      `height` and `below` are the proof's bookkeeping: a bound on the nesting
      depth and the set of all roots nested below this one. */
  class ShadowRoot {
    var sheets: seq<Sheet>   // adoptedStyleSheets
    var observed: bool       // _d2lDarkModeObserved
    const hosted: seq<ShadowRoot>
    ghost const height: nat
    ghost const below: set<ShadowRoot>

    /** Nesting is well-founded and `below` holds exactly the nested roots. */
    ghost predicate Valid()
      decreases height
    {
      below == Reach(hosted) &&
      forall i :: 0 <= i < |hosted| ==> hosted[i].height < height && hosted[i].Valid()
    }
  }

  /** The roots in `rs` and every root nested below them. */
  ghost function Reach(rs: seq<ShadowRoot>): set<ShadowRoot>
  {
    if rs == [] then {} else {rs[0]} + rs[0].below + Reach(rs[1..])
  }

  ghost predicate AllValid(rs: seq<ShadowRoot>, bound: nat)
  {
    forall i :: 0 <= i < |rs| ==> rs[i].Valid() && rs[i].height < bound
  }

  lemma {:induction false} ReachConcat(a: seq<ShadowRoot>, b: seq<ShadowRoot>)
    ensures Reach(a + b) == Reach(a) + Reach(b)
    decreases |a|
  {
    if a == [] {
      assert a + b == b;
    } else {
      assert (a + b)[1..] == a[1..] + b;
      ReachConcat(a[1..], b);
    }
  }

  /** Extending a prefix of the list by one root adds that root and the roots
      below it. */
  lemma ReachSnoc(rs: seq<ShadowRoot>, i: nat)
    requires i < |rs|
    ensures Reach(rs[..i + 1]) == Reach(rs[..i]) + {rs[i]} + rs[i].below
    ensures Reach(rs[..i + 1]) <= Reach(rs)
  {
    assert rs[..i + 1] == rs[..i] + [rs[i]];
    ReachConcat(rs[..i], [rs[i]]);
    assert rs == rs[..i + 1] + rs[i + 1..];
    ReachConcat(rs[..i + 1], rs[i + 1..]);
  }

  /** A larger bound is still a bound. */
  lemma AllValidWeaken(rs: seq<ShadowRoot>, bound: nat, bound': nat)
    requires AllValid(rs, bound) && bound <= bound'
    ensures AllValid(rs, bound')
  {
  }

  /** Every reached root is well formed, and the roots it hosts are reached
      too: the reach covers shadow roots nested at any depth. */
  lemma {:induction false} ReachClosed(rs: seq<ShadowRoot>, bound: nat, x: ShadowRoot)
    requires AllValid(rs, bound)
    requires x in Reach(rs)
    ensures x.Valid() && x.height < bound
    ensures forall j :: 0 <= j < |x.hosted| ==> x.hosted[j] in Reach(rs)
    decreases bound, |rs|
  {
    var r := rs[0];
    assert AllValid(rs[1..], bound);
    if x == r {
      forall j | 0 <= j < |x.hosted|
        ensures x.hosted[j] in Reach(rs)
      {
        ReachSnoc(x.hosted, j);
        ReachSnoc(x.hosted, |x.hosted| - 1);
        assert x.hosted[..|x.hosted|] == x.hosted;
      }
    } else if x in r.below {
      ReachClosed(r.hosted, r.height, x);
      forall j | 0 <= j < |x.hosted|
        ensures x.hosted[j] in Reach(rs)
      {
        assert x.hosted[j] in r.below;
      }
    } else {
      ReachClosed(rs[1..], bound, x);
    }
  }

  /** A bound on the nesting depth of a list of well-formed roots. */
  ghost function Bound(rs: seq<ShadowRoot>): (b: nat)
    ensures forall i :: 0 <= i < |rs| ==> rs[i].height < b
  {
    if rs == [] then 0
    else
      var rest := Bound(rs[1..]);
      var b := if rs[0].height < rest then rest else rs[0].height + 1;
      assert forall i :: 1 <= i < |rs| ==> rs[i] == rs[1..][i - 1];
      b
  }

  /* ---- Observers and the propagator ---- */

  /** A registered MutationObserver, identified by what it observes. */
  datatype Watcher = DocumentWatcher | RootWatcher(root: ShadowRoot)

  /** The propagator's closure state: the document observer, the set of all
      registered observers, the rescan interval, and the shared sheet's
      content. `docHosted` lists the shadow roots hosted in the document's own
      tree. */
  class Propagator {
    const docHosted: seq<ShadowRoot>
    var observers: multiset<Watcher>  // shadowObservers
    var documentObserver: bool        // shadowObserver !== null
    var rescanRunning: bool           // rescanInterval !== null
    var sharedMedia: seq<string>      // the shared sheet's media list

    ghost predicate RootsValid()
    {
      AllValid(docHosted, Bound(docHosted))
    }

    /** Observer bookkeeping: one document observer exactly while it is
        recorded, observers only for the document's roots, and at most one
        per root, only while the root is flagged observed. */
    /** The roots that have an observer registered. */
    ghost function WatchedRoots(): set<ShadowRoot>
      reads this
    {
      set w | w in observers && w.RootWatcher? :: w.root
    }

    ghost predicate Registered()
      reads this, WatchedRoots()`observed
    {
      observers[DocumentWatcher] == (if documentObserver then 1 else 0) &&
      (forall w :: w in observers && w.RootWatcher? ==> observers[w] == 1 && w.root.observed)
    }

    /** The script's load: no observers yet, the sheet built with canvas and video. */
    constructor(docHosted: seq<ShadowRoot>)
      ensures this.docHosted == docHosted
      ensures observers == multiset{} && !documentObserver && !rescanRunning
      ensures sharedMedia == BuildShadowMedia(true, true)
      ensures Registered()
    {
      this.docHosted := docHosted;
      observers := multiset{};
      documentObserver := false;
      rescanRunning := false;
      sharedMedia := BuildShadowMedia(true, true);
    }

    method InjectShadowStyles(r: ShadowRoot)
      modifies r`sheets
      ensures r.sheets == Inserted(old(r.sheets))
    {
      if Shared in r.sheets {
        return;
      }
      r.sheets := r.sheets + [Shared];
    }

    /** `observeShadowRoot`: registers an observer only for a root not yet
        flagged, and flags it. */
    method ObserveShadowRoot(r: ShadowRoot)
      requires Registered()
      modifies this`observers, r`observed
      ensures r.observed
      ensures observers == if old(r.observed) then old(observers) else old(observers) + multiset{RootWatcher(r)}
      ensures Registered()
    {
      if r.observed {
        return;
      }
      r.observed := true;
      observers := observers + multiset{RootWatcher(r)};
    }

    /** `injectAllShadowRoots` from a root whose tree hosts `hosted`: every
        root reached gets the shared sheet and is flagged observed; observers
        are only ever added. */
    method InjectAllShadowRoots(hosted: seq<ShadowRoot>, ghost bound: nat)
      requires AllValid(hosted, bound)
      requires forall r :: r in Reach(hosted) ==> allocated(r)
      requires Registered()
      modifies this`observers, Reach(hosted)`sheets, Reach(hosted)`observed
      decreases bound, 1
      ensures Registered()
      ensures forall r :: r in Reach(hosted) ==> r.observed && r.sheets == Inserted(old(r.sheets))
      ensures old(observers) <= observers
    {
      ghost var done: set<ShadowRoot> := {};
      for i := 0 to |hosted|
        invariant done == Reach(hosted[..i]) && done <= Reach(hosted)
        invariant Registered()
        invariant forall r :: r in done ==> r.observed && r.sheets == Inserted(old(r.sheets))
        invariant forall r :: r in Reach(hosted) && r !in done ==> r.sheets == old(r.sheets)
        invariant old(observers) <= observers
      {
        var r := hosted[i];
        ReachSnoc(hosted, i);
        var visit := {r} + r.below;
        VisitRoot(r);
        done := done + visit;
      }
      assert hosted[..|hosted|] == hosted;
    }

    /** One step of the walk: the root gets the sheet and an observer, then
        the walk continues into the roots it hosts. */
    method VisitRoot(r: ShadowRoot)
      requires r.Valid()
      requires forall x :: x in {r} + r.below ==> allocated(x)
      requires Registered()
      modifies this`observers, ({r} + r.below)`sheets, ({r} + r.below)`observed
      decreases r.height, 2
      ensures Registered()
      ensures forall x :: x in {r} + r.below ==> x.observed && x.sheets == Inserted(old(x.sheets))
      ensures old(observers) <= observers
    {
      InjectShadowStyles(r);
      ObserveShadowRoot(r);
      InjectAllShadowRoots(r.hosted, r.height);
      forall x | x in {r} + r.below
        ensures x.observed && x.sheets == Inserted(old(x.sheets))
      {
        if x == r && x in r.below {
          InsertedIdempotent(old(x.sheets));
        }
      }
    }

    /** The process step of `removeShadowStyles`' walk. */
    method ProcessRemoval(r: ShadowRoot)
      modifies r`sheets, r`observed
      ensures r.sheets == Removed(old(r.sheets)) && !r.observed
    {
      r.sheets := Removed(r.sheets);
      r.observed := false;
    }

    /** The walk of `removeShadowStyles` from a root whose tree hosts `hosted`:
        every reached root loses the shared sheet and its observed flag. */
    method RemoveAllShadowStyles(hosted: seq<ShadowRoot>, ghost bound: nat)
      requires AllValid(hosted, bound)
      requires forall r :: r in Reach(hosted) ==> allocated(r)
      modifies Reach(hosted)`sheets, Reach(hosted)`observed
      decreases bound, 1
      ensures forall r :: r in Reach(hosted) ==> !r.observed && r.sheets == Removed(old(r.sheets))
    {
      ghost var done: set<ShadowRoot> := {};
      for i := 0 to |hosted|
        invariant done == Reach(hosted[..i]) && done <= Reach(hosted)
        invariant forall r :: r in done ==> !r.observed && r.sheets == Removed(old(r.sheets))
        invariant forall r :: r in Reach(hosted) && r !in done ==> r.sheets == old(r.sheets)
      {
        var r := hosted[i];
        ReachSnoc(hosted, i);
        var visit := {r} + r.below;
        VisitRemoval(r);
        done := done + visit;
      }
      assert hosted[..|hosted|] == hosted;
    }

    /** One step of the removal walk. */
    method VisitRemoval(r: ShadowRoot)
      requires r.Valid()
      requires forall x :: x in {r} + r.below ==> allocated(x)
      modifies ({r} + r.below)`sheets, ({r} + r.below)`observed
      decreases r.height, 2
      ensures forall x :: x in {r} + r.below ==> !x.observed && x.sheets == Removed(old(x.sheets))
    {
      ProcessRemoval(r);
      RemoveAllShadowStyles(r.hosted, r.height);
    }

    /** `removeShadowStyles`: walks the whole document. Observers are not
        touched. */
    method RemoveShadowStyles()
      requires RootsValid()
      requires forall r :: r in Reach(docHosted) ==> allocated(r)
      modifies Reach(docHosted)`sheets, Reach(docHosted)`observed
      ensures forall r :: r in Reach(docHosted) ==> !r.observed && r.sheets == Removed(old(r.sheets))
    {
      RemoveAllShadowStyles(docHosted, Bound(docHosted));
    }

    /** `startShadowObserver`: always walks the document; creates the document
        observer only when there is none, and starts the rescan interval only
        together with a new document observer and only if none is running. */
    method StartShadowObserver()
      requires RootsValid() && Registered()
      requires forall r :: r in Reach(docHosted) ==> allocated(r)
      modifies this`observers, this`documentObserver, this`rescanRunning
      modifies Reach(docHosted)`sheets, Reach(docHosted)`observed
      ensures Registered()
      ensures documentObserver && observers[DocumentWatcher] == 1
      ensures old(observers) <= observers
      ensures rescanRunning == if old(documentObserver) then old(rescanRunning) else true
      ensures forall r :: r in Reach(docHosted) ==> r.observed && r.sheets == Inserted(old(r.sheets))
    {
      InjectAllShadowRoots(docHosted, Bound(docHosted));
      if documentObserver {
        return;
      }
      documentObserver := true;
      observers := observers + multiset{DocumentWatcher};
      if !rescanRunning {
        rescanRunning := true;
      }
    }

    /** `stopShadowObserver`: every observer disconnected, the set emptied,
        the interval cleared. The roots' observed flags stay as they are. */
    method StopShadowObserver()
      requires RootsValid()
      modifies this`observers, this`documentObserver, this`rescanRunning
      ensures observers == multiset{} && !documentObserver && !rescanRunning
      ensures Registered()
    {
      observers := multiset{};
      documentObserver := false;
      rescanRunning := false;
    }

    /** The rescan timeout's callback: the interval stops if still running. */
    method ExpireRescan()
      modifies this`rescanRunning
      ensures !rescanRunning
    {
      if rescanRunning {
        rescanRunning := false;
      }
    }
  }
}
