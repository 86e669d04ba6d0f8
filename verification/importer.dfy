/**
 * The frame hierarchy importer of `FileRouter.handle`: after a fetched page
 * has been parsed, every frame it declares that the live document lacks is
 * attached, invisible, below its nearest live ancestor.
 *
 * The live document is a fixed set of frame paths: a path has a live view
 * exactly when it is in `live`. Inserted markup is never parsed during the
 * pass, so it never adds a live view. A view is identified by its path.
 */
module Importer {
  import opened Wrappers
  import opened Paths

  /** One `insertAdjacentHTML('beforeend', …)`: a copy of frame `child` appended to
    * the inner element of the live view of `container`, with its opacity set to 0
    * when `hidden`. */
  datatype Insertion = Insertion(container: string, child: string, hidden: bool)

  /**
   * The state of the import loop. `alreadyImported` and `toParseChildren` are the
   * key sets of the two objects of the same names (their values are always `true`).
   * `parentView` and `pathToImport` are declared with `var` inside the loop body,
   * so they belong to the enclosing function and keep their values from one
   * iteration to the next.
   */
  datatype ImportState = ImportState(
    alreadyImported: set<string>,
    toParseChildren: set<string>,
    insertions: seq<Insertion>,
    parentView: Option<string>,
    pathToImport: Option<string>)
  {
    /** `parentView` is only ever set together with `pathToImport`. */
    predicate Valid()
    {
      parentView.Some? ==> pathToImport.Some?
    }
  }

  const Initial := ImportState({}, {}, [], None, None)

  /**
   * What the pass keeps true of its state: every insertion is hidden and puts a
   * direct child below a live frame, every inserted child is recorded as imported,
   * no live frame is ever recorded as imported, and a remembered parent view is
   * live with the remembered path to import as its child.
   */
  predicate Consistent(s: ImportState, live: set<string>)
  {
    && s.Valid()
    && (forall i :: 0 <= i < |s.insertions| ==>
          && s.insertions[i].hidden
          && s.insertions[i].container in live
          && IsChildOf(s.insertions[i].child, s.insertions[i].container)
          && s.insertions[i].child in s.alreadyImported)
    && s.alreadyImported !! live
    && (s.parentView.Some? ==>
          && s.parentView.value in live
          && IsChildOf(s.pathToImport.value, s.parentView.value)
          && s.pathToImport.value !in live)
  }

  /** No frame is inserted twice. */
  predicate DistinctChildren(insertions: seq<Insertion>)
  {
    forall i, j :: 0 <= i < j < |insertions| ==> insertions[i].child != insertions[j].child
  }

  /** The variables of the ancestor walk. */
  datatype Cursor = Cursor(parentPath: string, parentView: Option<string>, pathToImport: Option<string>)

  /** `state.getViewForPath(path, document)` against the live document. */
  function ViewFor(path: string, live: set<string>): (v: Option<string>)
    ensures v.Some? <==> path in live
    ensures v.Some? ==> v.value == path
  {
    if path in live then Some(path) else None
  }

  /**
   * Keys under which a function object has a truthy property: own `length` and
   * `name`, and the members of `Function.prototype` and `Object.prototype`.
   */
  const FunctionObjectProperties: set<string> := {
    "length", "name", "apply", "bind", "call", "toString", "constructor",
    "hasOwnProperty", "isPrototypeOf", "propertyIsEnumerable", "toLocaleString",
    "valueOf", "__defineGetter__", "__defineSetter__", "__lookupGetter__",
    "__lookupSetter__", "__proto__"}

  /**
   * The guard `!alreadyImported.hasOwnProperty[parentPath]`: it indexes the
   * method instead of calling it, so it looks `parentPath` up on a function
   * object and ignores `alreadyImported` altogether.
   */
  predicate BracketGuard(parentPath: string)
  {
    parentPath !in FunctionObjectProperties
  }

  /** The bracket guard can only fail on a path without a dot. */
  lemma BracketGuardHoldsOnDottedPaths(parentPath: string)
    requires '.' in parentPath
    ensures BracketGuard(parentPath)
  {
  }

  /** A frame the loop skips: it is live already, or it is a placeholder `….none`. */
  predicate Skipped(frame: string, live: set<string>, none: string)
  {
    frame in live || EndsWith(frame, "." + none)
  }

  /** The condition of the ancestor walk's `while`. */
  predicate CanClimb(c: Cursor, alreadyImported: set<string>)
  {
    c.parentView.None? && IndexOf(c.parentPath, ".") > 0 && c.parentPath !in alreadyImported
  }

  /**
   * The ancestor walk: while no parent view is known, the path has an inner dot
   * and it was not imported in this pass, remember the path as the one to import
   * and move to its parent.
   */
  function Walk(c: Cursor, alreadyImported: set<string>, live: set<string>): (w: Cursor)
    ensures !CanClimb(w, alreadyImported)
    ensures !CanClimb(c, alreadyImported) ==> w == c
    ensures CanClimb(c, alreadyImported) ==> IsAncestor(w.parentPath, c.parentPath)
    ensures DotCount(w.parentPath) <= DotCount(c.parentPath)
    ensures w.parentPath == c.parentPath || IsAncestor(w.parentPath, c.parentPath)
    // after at least one step the walk stands on a parent it looked up, and the
    // path to import is that parent's child on the way down to the start
    ensures w.parentPath != c.parentPath ==>
      && w.parentView == ViewFor(w.parentPath, live)
      && w.pathToImport.Some?
      && IsChildOf(w.pathToImport.value, w.parentPath)
      && (w.pathToImport.value == c.parentPath || IsAncestor(w.pathToImport.value, c.parentPath))
    // every path strictly between the stop and the start was neither imported nor live
    ensures forall q :: IsAncestor(w.parentPath, q) && (q == c.parentPath || IsAncestor(q, c.parentPath)) ==>
      q !in alreadyImported && (q != c.parentPath ==> q !in live)
    decreases DotCount(c.parentPath)
  {
    if CanClimb(c, alreadyImported) then
      InnerDot(c.parentPath);
      var parent := StripLastSegment(c.parentPath);
      var next := Cursor(parent, ViewFor(parent, live), Some(c.parentPath));
      var w := Walk(next, alreadyImported, live);
      assert IsAncestor(w.parentPath, c.parentPath) by {
        if w.parentPath != parent {
          AncestorTransitive(w.parentPath, parent, c.parentPath);
        }
      }
      assert w.pathToImport.value == c.parentPath || IsAncestor(w.pathToImport.value, c.parentPath) by {
        if w.parentPath != parent && w.pathToImport.value != parent {
          AncestorTransitive(w.pathToImport.value, parent, c.parentPath);
        }
      }
      assert forall q :: IsAncestor(q, c.parentPath) ==> q == parent || IsAncestor(q, parent) by {
        forall q | IsAncestor(q, c.parentPath)
          ensures q == parent || IsAncestor(q, parent)
        {
          AncestorOfParent(q, c.parentPath);
        }
      }
      w
    else c
  }

  /**
   * One iteration of the loop (lines 67-91) as written: the walk starts from the
   * frame but keeps the previous iteration's `parentView` and `pathToImport`.
   */
  function Step(s: ImportState, frame: string, live: set<string>, none: string): (t: ImportState)
    requires s.Valid()
    ensures t.Valid()
    ensures Skipped(frame, live, none) ==> t == s
    ensures Consistent(s, live) ==> Consistent(t, live)
    // the log is append-only and grows by at most one insertion, which adds one
    // imported key and one key to re-parse; without an insertion no key changes
    ensures s.insertions <= t.insertions && |t.insertions| <= |s.insertions| + 1
    ensures |t.insertions| == |s.insertions| ==>
      t.alreadyImported == s.alreadyImported && t.toParseChildren == s.toParseChildren
    ensures |t.insertions| == |s.insertions| + 1 ==>
      t.alreadyImported == s.alreadyImported + {t.insertions[|s.insertions|].child}
    // with no parent view carried over, the frame is attached exactly when it has a
    // reachable live parent that passes the line-84 guard; the new entry puts a
    // child of that parent, on the way down to the frame, into its container, and
    // the parent is the key marked for re-parsing
    ensures s.parentView.None? && !Skipped(frame, live, none) ==>
      (|t.insertions| == |s.insertions| + 1 <==>
         exists a :: ReachableParent(frame, a, s.alreadyImported, live) && BracketGuard(a))
    ensures s.parentView.None? && |t.insertions| == |s.insertions| + 1 ==>
      var e := t.insertions[|s.insertions|];
      && ReachableParent(frame, e.container, s.alreadyImported, live)
      && BracketGuard(e.container)
      && IsChildOf(e.child, e.container)
      && (e.child == frame || IsAncestor(e.child, frame))
      && e.hidden
      && t.toParseChildren == s.toParseChildren + {e.container}
    // with a parent view carried over from an earlier frame, the walk is skipped:
    // the frame is attached exactly when its own path passes the guard, the
    // remembered path goes into the remembered container again, and the frame's
    // own path is the key marked for re-parsing
    ensures s.parentView.Some? && !Skipped(frame, live, none) ==>
      (|t.insertions| == |s.insertions| + 1 <==> BracketGuard(frame))
    ensures s.parentView.Some? && |t.insertions| == |s.insertions| + 1 ==>
      && t.insertions[|s.insertions|] == Insertion(s.parentView.value, s.pathToImport.value, true)
      && t.toParseChildren == s.toParseChildren + {frame}
    // the walk's variables outlive the frame: a remembered parent view and path to
    // import are kept as they are, and a fresh walk leaves behind the reachable live
    // parent it found, whether or not the guard let it insert
    ensures s.parentView.Some? ==> t.parentView == s.parentView && t.pathToImport == s.pathToImport
    ensures s.parentView.None? && !Skipped(frame, live, none) ==>
      forall a :: t.parentView == Some(a) <==> ReachableParent(frame, a, s.alreadyImported, live)
    // the path a fresh walk leaves behind is the parent's child on the way down to
    // the frame, and whatever is inserted is the path the state goes on remembering
    ensures s.parentView.None? && t.parentView.Some? ==>
      && t.pathToImport.Some?
      && IsChildOf(t.pathToImport.value, t.parentView.value)
      && (t.pathToImport.value == frame || IsAncestor(t.pathToImport.value, frame))
    ensures |t.insertions| == |s.insertions| + 1 ==> t.pathToImport == Some(t.insertions[|s.insertions|].child)
  {
    if Skipped(frame, live, none) then s
    else
      var w := Walk(Cursor(frame, s.parentView, s.pathToImport), s.alreadyImported, live);
      assert s.parentView.None? ==>
        forall a :: w.parentView == Some(a) <==> ReachableParent(frame, a, s.alreadyImported, live) by {
        if s.parentView.None? {
          forall a ensures w.parentView == Some(a) <==> ReachableParent(frame, a, s.alreadyImported, live) {
            WalkFindsNearestLiveAncestor(frame, s.pathToImport, s.alreadyImported, live, a);
          }
        }
      }
      if w.parentView.Some? && BracketGuard(w.parentPath) then
        ImportState(
          s.alreadyImported + {w.pathToImport.value},
          s.toParseChildren + {w.parentPath},
          s.insertions + [Insertion(w.parentView.value, w.pathToImport.value, true)],
          w.parentView, w.pathToImport)
      else
        ImportState(s.alreadyImported, s.toParseChildren, s.insertions, w.parentView, w.pathToImport)
  }

  /** The whole pass over `loadedFrames`, as written. */
  function ImportRun(frames: seq<string>, live: set<string>, none: string): (s: ImportState)
    ensures s.Valid()
    ensures Consistent(s, live)
  {
    if |frames| == 0 then Initial
    else Step(ImportRun(frames[..|frames| - 1], live, none), frames[|frames| - 1], live, none)
  }

  /**
   * Once a prefix of the frames has left a parent view behind, the rest of the
   * pass keeps that parent view and path to import: no later frame walks again.
   */
  lemma {:induction false} RememberedParentPersists(frames: seq<string>, i: nat, live: set<string>, none: string)
    requires i <= |frames|
    ensures var before := ImportRun(frames[..i], live, none);
            before.parentView.Some? ==>
              && ImportRun(frames, live, none).parentView == before.parentView
              && ImportRun(frames, live, none).pathToImport == before.pathToImport
    decreases |frames|
  {
    if i < |frames| {
      var init := frames[..|frames| - 1];
      assert frames[..i] == init[..i];
      RememberedParentPersists(init, i, live, none);
    } else {
      assert frames[..i] == frames;
    }
  }

  /**
   * The loop itself (lines 63-92), with the walk as an inner `while` loop whose
   * measure is the number of dots left in `parentPath`.
   */
  method ImportFrames(frames: seq<string>, live: set<string>, none: string) returns (s: ImportState)
    ensures s == ImportRun(frames, live, none)
  {
    var alreadyImported: set<string> := {};
    var toParseChildren: set<string> := {};
    var insertions: seq<Insertion> := [];
    var parentView: Option<string> := None;
    var pathToImport: Option<string> := None;
    var x := 0;
    while x < |frames|
      invariant 0 <= x <= |frames|
      invariant ImportState(alreadyImported, toParseChildren, insertions, parentView, pathToImport)
             == ImportRun(frames[..x], live, none)
    {
      assert frames[..x + 1][..x] == frames[..x];
      var frame := frames[x];
      if !(frame in live || EndsWith(frame, "." + none)) {
        var start := Cursor(frame, parentView, pathToImport);
        var parentPath := frame;
        while parentView.None? && IndexOf(parentPath, ".") > 0 && parentPath !in alreadyImported
          invariant Walk(Cursor(parentPath, parentView, pathToImport), alreadyImported, live)
                 == Walk(start, alreadyImported, live)
          decreases DotCount(parentPath)
        {
          InnerDot(parentPath);
          pathToImport := Some(parentPath);
          parentPath := StripLastSegment(parentPath);
          parentView := ViewFor(parentPath, live);
        }
        if parentView.Some? && BracketGuard(parentPath) {
          insertions := insertions + [Insertion(parentView.value, pathToImport.value, true)];
          toParseChildren := toParseChildren + {parentPath};
          alreadyImported := alreadyImported + {pathToImport.value};
        }
      }
      x := x + 1;
    }
    assert frames[..x] == frames;
    s := ImportState(alreadyImported, toParseChildren, insertions, parentView, pathToImport);
  }

  /**
   * `a` is the parent a walk from `frame` with no remembered parent view ends on:
   * a live ancestor such that every path from `frame` up to (not including) `a` can
   * be climbed — not imported yet, not live except possibly `frame` itself — and
   * `frame` does not start with a dot.
   */
  ghost predicate ReachableParent(frame: string, a: string, alreadyImported: set<string>, live: set<string>)
  {
    && IsAncestor(a, frame)
    && a in live
    && frame[0] != '.'
    && forall q :: IsAncestor(a, q) && (q == frame || IsAncestor(q, frame)) ==>
         q !in alreadyImported && (q != frame ==> q !in live)
  }

  /** A walk that starts without a parent view finds exactly the reachable parent. */
  lemma WalkFindsNearestLiveAncestor(frame: string, pathToImport: Option<string>,
                                     alreadyImported: set<string>, live: set<string>, a: string)
    ensures Walk(Cursor(frame, None, pathToImport), alreadyImported, live).parentView == Some(a)
        <==> ReachableParent(frame, a, alreadyImported, live)
  {
    var c := Cursor(frame, None, pathToImport);
    var w := Walk(c, alreadyImported, live);
    if w.parentView == Some(a) {
      assert w.parentPath != frame;
      InnerDot(frame);
    }
    if ReachableParent(frame, a, alreadyImported, live) {
      InnerDotConverse(frame);
      assert CanClimb(c, alreadyImported);
      AncestorsComparable(a, w.parentPath, frame);
      if IsAncestor(a, w.parentPath) {
        assert w.parentPath[0] == frame[0];
        InnerDotConverse(w.parentPath);
        assert false;
      }
      assert w.parentPath == a;
    }
  }

  /**
   * Once a parent view has been found, every later frame that is not skipped and
   * passes the bracket guard skips the walk and inserts the remembered path
   * again, into the remembered parent's container, while the key marked for
   * re-parsing is the new frame.
   */
  lemma StaleParentIsReused(s: ImportState, frame: string, live: set<string>, none: string)
    requires s.Valid() && s.parentView.Some?
    requires !Skipped(frame, live, none) && BracketGuard(frame)
    ensures Step(s, frame, live, none) == ImportState(
      s.alreadyImported + {s.pathToImport.value},
      s.toParseChildren + {frame},
      s.insertions + [Insertion(s.parentView.value, s.pathToImport.value, true)],
      s.parentView, s.pathToImport)
  {
  }

  /** Insertions are made in the order of the frames: a shorter pass logs a prefix. */
  lemma {:induction false} InsertionsFollowFrameOrder(frames: seq<string>, i: nat, live: set<string>, none: string)
    requires i <= |frames|
    ensures ImportRun(frames[..i], live, none).insertions <= ImportRun(frames, live, none).insertions
    decreases |frames|
  {
    if i < |frames| {
      var init := frames[..|frames| - 1];
      assert frames[..i] == init[..i];
      InsertionsFollowFrameOrder(init, i, live, none);
    } else {
      assert frames[..i] == frames;
    }
  }

  /**
   * One iteration with the evident intent of lines 73-84: the walk starts afresh
   * for every frame, and the guard asks whether the parent was imported in this pass.
   */
  function StepIntended(s: ImportState, frame: string, live: set<string>, none: string): (t: ImportState)
    ensures Skipped(frame, live, none) ==> t == s
    ensures s.insertions <= t.insertions && |t.insertions| <= |s.insertions| + 1
    ensures Consistent(s, live) ==> Consistent(t, live)
    ensures Consistent(s, live) && DistinctChildren(s.insertions) ==> DistinctChildren(t.insertions)
    // a frame is attached exactly when it has a reachable live parent
    ensures Consistent(s, live) && !Skipped(frame, live, none) ==>
      (|t.insertions| == |s.insertions| + 1 <==> exists a :: ReachableParent(frame, a, s.alreadyImported, live))
  {
    if Skipped(frame, live, none) then s
    else
      var w := Walk(Cursor(frame, None, None), s.alreadyImported, live);
      if w.parentView.Some? && w.parentPath !in s.alreadyImported then
        var child := w.pathToImport.value;
        assert child !in s.alreadyImported;
        assert ReachableParent(frame, w.parentView.value, s.alreadyImported, live) by {
          WalkFindsNearestLiveAncestor(frame, None, s.alreadyImported, live, w.parentView.value);
        }
        ImportState(
          s.alreadyImported + {child},
          s.toParseChildren + {w.parentPath},
          s.insertions + [Insertion(w.parentView.value, child, true)],
          w.parentView, w.pathToImport)
      else
        assert Consistent(s, live) ==> forall a :: !ReachableParent(frame, a, s.alreadyImported, live) by {
          forall a | ReachableParent(frame, a, s.alreadyImported, live)
            ensures !Consistent(s, live)
          {
            WalkFindsNearestLiveAncestor(frame, None, s.alreadyImported, live, a);
          }
        }
        ImportState(s.alreadyImported, s.toParseChildren, s.insertions, w.parentView, w.pathToImport)
  }

  /** The pass over `loadedFrames` with the intended iteration. */
  function ImportRunIntended(frames: seq<string>, live: set<string>, none: string): (s: ImportState)
    ensures Consistent(s, live)
    ensures DistinctChildren(s.insertions)
  {
    if |frames| == 0 then Initial
    else StepIntended(ImportRunIntended(frames[..|frames| - 1], live, none), frames[|frames| - 1], live, none)
  }

  /** The names the bracket guard trips on are single segments. */
  lemma FunctionObjectPropertiesAreSegments(k: string)
    requires k in FunctionObjectProperties
    ensures |k| > 0 && '.' !in k
  {
  }

  /**
   * The walk from a new child `a.b` of a frame `a` that is live and not yet
   * imported ends on `a`, with `a.b` as the path to import.
   */
  lemma WalkToLiveParent(a: string, b: string, alreadyImported: set<string>, live: set<string>)
    requires |a| > 0 && '.' !in a && '.' !in b
    requires a in live && a + "." + b !in alreadyImported
    ensures Walk(Cursor(a + "." + b, None, None), alreadyImported, live) == Cursor(a, Some(a), Some(a + "." + b))
  {
    FirstDotOfChild(a, b);
    ParentOfChild(a, b);
    var found := Cursor(a, Some(a), Some(a + "." + b));
    assert !CanClimb(found, alreadyImported);
  }

  /**
   * As written, the first new child `a.b` of a live frame `a` is attached below
   * it, and `a` stays remembered as the parent view.
   */
  lemma FirstChildAttached(a: string, b: string, none: string)
    requires |a| > 0 && '.' !in a && '.' !in b && BracketGuard(a)
    requires !EndsWith(a + "." + b, "." + none)
    ensures ImportRun([a + "." + b], {a}, none)
         == ImportState({a + "." + b}, {a}, [Insertion(a, a + "." + b, true)], Some(a), Some(a + "." + b))
  {
    assert [a + "." + b][..0] == [];
    WalkToLiveParent(a, b, {}, {a});
  }

  /** With `a` live, the pass over `a`, `a.b` attaches exactly `a.b`, hidden, below `a`. */
  lemma ImportsNewChildOfLiveFrame(a: string, b: string, none: string)
    requires |a| > 0 && '.' !in a && '.' !in b && BracketGuard(a)
    requires !EndsWith(a + "." + b, "." + none)
    ensures ImportRun([a, a + "." + b], {a}, none).insertions == [Insertion(a, a + "." + b, true)]
  {
    assert [a, a + "." + b][..1] == [a];
    assert [a][..0] == [];
    assert ImportRun([a], {a}, none) == Initial;
    WalkToLiveParent(a, b, {}, {a});
  }

  /**
   * Because `parentView` and `pathToImport` outlive their iteration, the frames
   * `a.b` and `a.b.c` below a live `a` append `a.b` below `a` twice: once for
   * itself and once more for `a.b.c`, which never walks.
   */
  lemma DuplicateInsertionAsWritten(a: string, b: string, c: string, none: string)
    requires |a| > 0 && '.' !in a && '.' !in b && BracketGuard(a)
    requires !EndsWith(a + "." + b, "." + none) && !EndsWith(a + "." + b + "." + c, "." + none)
    ensures ImportRun([a + "." + b, a + "." + b + "." + c], {a}, none).insertions
         == [Insertion(a, a + "." + b, true), Insertion(a, a + "." + b, true)]
  {
    var ab := a + "." + b;
    var abc := ab + "." + c;
    var s1 := ImportState({ab}, {a}, [Insertion(a, ab, true)], Some(a), Some(ab));
    FirstChildAttached(a, b, none);
    assert [ab, abc][..1] == [ab];
    assert abc[|ab|] == '.';
    BracketGuardHoldsOnDottedPaths(abc);
    StaleParentIsReused(s1, abc, {a}, none);
  }

  /**
   * The bracket guard refuses a parent named like a property of a function
   * object: in a pass whose only frame is `k.b`, nothing is attached below a
   * live frame `k` such as `length`.
   */
  lemma FunctionPropertyParentRefusedAsWritten(k: string, b: string, none: string)
    requires k in FunctionObjectProperties && '.' !in b
    requires !EndsWith(k + "." + b, "." + none)
    ensures ImportRun([k + "." + b], {k}, none).insertions == []
  {
    assert [k + "." + b][..0] == [];
    FunctionObjectPropertiesAreSegments(k);
    WalkToLiveParent(k, b, {}, {k});
  }

  /**
   * A walk from `a.b.c` stops at `a.b` once `a.b` has been imported, without
   * finding a parent view.
   */
  lemma WalkStopsAtImportedParent(a: string, b: string, c: string, live: set<string>)
    requires |a| > 0 && '.' !in a && '.' !in c
    requires a + "." + b !in live
    ensures Walk(Cursor(a + "." + b + "." + c, None, None), {a + "." + b}, live)
         == Cursor(a + "." + b, None, Some(a + "." + b + "." + c))
  {
    var ab := a + "." + b;
    var abc := ab + "." + c;
    assert abc == a + "." + (b + "." + c);
    FirstDotOfChild(a, b + "." + c);
    ParentOfChild(ab, c);
    assert !CanClimb(Cursor(ab, None, Some(abc)), {ab});
  }

  /** With the intended iteration, the first new child `a.b` of a live `a` is attached below it. */
  lemma FirstChildAttachedWhenIntended(a: string, b: string, none: string)
    requires |a| > 0 && '.' !in a && '.' !in b
    requires !EndsWith(a + "." + b, "." + none)
    ensures ImportRunIntended([a + "." + b], {a}, none)
         == ImportState({a + "." + b}, {a}, [Insertion(a, a + "." + b, true)], Some(a), Some(a + "." + b))
  {
    assert [a + "." + b][..0] == [];
    WalkToLiveParent(a, b, {}, {a});
  }

  /** With the intended iteration, `a.b` is attached once and `a.b.c` waits for a later pass. */
  lemma NoDuplicateWhenIntended(a: string, b: string, c: string, none: string)
    requires |a| > 0 && '.' !in a && '.' !in b && '.' !in c
    requires !EndsWith(a + "." + b, "." + none) && !EndsWith(a + "." + b + "." + c, "." + none)
    ensures ImportRunIntended([a + "." + b, a + "." + b + "." + c], {a}, none).insertions
         == [Insertion(a, a + "." + b, true)]
  {
    var ab := a + "." + b;
    var abc := ab + "." + c;
    var s1 := ImportState({ab}, {a}, [Insertion(a, ab, true)], Some(a), Some(ab));
    FirstChildAttachedWhenIntended(a, b, none);
    assert [ab, abc][..1] == [ab];
    WalkStopsAtImportedParent(a, b, c, {a});
    assert !Skipped(abc, {a}, none);
    assert StepIntended(s1, abc, {a}, none).insertions == s1.insertions;
  }

  /** With the intended guard, a child of a live frame named `length` is attached below it. */
  lemma FunctionPropertyParentAcceptedWhenIntended(k: string, b: string, none: string)
    requires k in FunctionObjectProperties && '.' !in b
    requires !EndsWith(k + "." + b, "." + none)
    ensures ImportRunIntended([k + "." + b], {k}, none).insertions == [Insertion(k, k + "." + b, true)]
  {
    assert [k + "." + b][..0] == [];
    FunctionObjectPropertiesAreSegments(k);
    WalkToLiveParent(k, b, {}, {k});
  }
}
