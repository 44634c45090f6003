/** The build driver's choice of projects: depth-first selection with cycle
    detection, then an ordering that lists every project before what it links. */
module ProjectOrder {
  import opened Wrappers

  /** A project reference: the (case-folded) name of the project file, and its two switches. */
  datatype Ref = Ref(target: nat, link: bool, useInputs: bool)

  /** project_named: the first project of that name. */
  function Named(names: seq<nat>, name: nat): (r: Option<nat>)
    ensures r.Some? ==> r.value < |names| && names[r.value] == name && name !in names[..r.value]
    ensures r.None? ==> name !in names
  {
    if names == [] then None
    else if names[0] == name then Some(0)
    else match Named(names[1..], name) case None => None case Some(k) => Some(k + 1)
  }

  /** The manifest: project names and their references. */
  datatype Manifest = Manifest(names: seq<nat>, refs: seq<seq<Ref>>)

  ghost predicate ManifestOk(m: Manifest) {
    && |m.names| == |m.refs|
    && forall i, j :: 0 <= i < j < |m.names| ==> m.names[i] != m.names[j]
  }

  ghost predicate Links(m: Manifest, p: nat, d: nat) {
    && p < |m.refs| && d < |m.names|
    && exists r :: r in m.refs[p] && r.link && r.target == m.names[d]
  }

  ghost predicate MissingReference(m: Manifest, p: nat) {
    p < |m.refs| && exists r :: r in m.refs[p] && r.target !in m.names
  }

  ghost predicate IsPath(m: Manifest, path: seq<nat>) {
    && path != [] && (forall i :: 0 <= i < |path| ==> path[i] < |m.names|)
    && forall i :: 0 <= i < |path| - 1 ==> Links(m, path[i], path[i + 1])
  }

  ghost predicate Reaches(m: Manifest, p: nat, q: nat) {
    exists path :: IsPath(m, path) && path[0] == p && path[|path| - 1] == q
  }

  ghost predicate Cycle(m: Manifest, path: seq<nat>) {
    IsPath(m, path) && |path| > 1 && path[0] == path[|path| - 1]
  }

  /** From root one comes to a cycle, or to a reference without a project. */
  ghost predicate Unbuildable(m: Manifest, root: nat) {
    || (exists c :: Cycle(m, c) && Reaches(m, root, c[0]))
    || (exists q: nat :: MissingReference(m, q) && Reaches(m, root, q))
  }

  lemma ReachesStep(m: Manifest, p: nat, q: nat, d: nat)
    requires Reaches(m, p, q) && Links(m, q, d)
    ensures Reaches(m, p, d)
  {
    var path :| IsPath(m, path) && path[0] == p && path[|path| - 1] == q;
    assert IsPath(m, path + [d]);
  }

  lemma ReachesSelf(m: Manifest, p: nat)
    requires p < |m.names|
    ensures Reaches(m, p, p)
  {
    assert IsPath(m, [p]);
  }

  // ---- the state of the search ------------------------------------------------------

  /** The flags of the projects, and when each was left (a number per project). */
  datatype Marks = Marks(visiting: seq<bool>, selected: seq<bool>, left: seq<nat>, clock: nat)

  predicate Finished(k: Marks, p: nat)
    requires |k.visiting| == |k.selected|
  {
    p < |k.selected| && k.selected[p] && !k.visiting[p]
  }

  /** What a project left behind links was left earlier, and its references exist. */
  ghost predicate Ranked(m: Manifest, k: Marks)
    ensures Ranked(m, k) ==> |k.visiting| == |k.selected| == |k.left| == |m.names|
  {
    && |k.visiting| == |k.selected| == |k.left| == |m.names|
    && (forall p :: 0 <= p < |m.names| && k.visiting[p] ==> k.selected[p])
    && (forall p :: 0 <= p < |m.names| && Finished(k, p) ==> k.left[p] < k.clock)
    && (forall p: nat :: p < |m.names| && Finished(k, p) ==> !MissingReference(m, p))
    && (forall p: nat, d: nat :: Links(m, p, d) && p < |m.names| && Finished(k, p) ==> Finished(k, d) && k.left[d] < k.left[p])
  }

  /** Nothing finished is touched again. */
  ghost predicate Later(was: Marks, now: Marks)
    requires |was.visiting| == |was.selected| == |was.left| == |now.visiting| == |now.selected| == |now.left|
  {
    && now.clock >= was.clock
    && (forall p :: 0 <= p < |was.selected| && was.selected[p] ==> now.selected[p])
    && (forall p :: 0 <= p < |was.selected| && Finished(was, p) ==> Finished(now, p) && now.left[p] == was.left[p])
  }

  function Unselected(selected: seq<bool>): nat {
    if selected == [] then 0 else (if selected[0] then 0 else 1) + Unselected(selected[1..])
  }

  lemma {:induction false} SelectingShrinks(a: seq<bool>, b: seq<bool>)
    requires |a| == |b| && forall i :: 0 <= i < |a| && a[i] ==> b[i]
    ensures Unselected(b) <= Unselected(a)
    ensures (exists i :: 0 <= i < |a| && !a[i] && b[i]) ==> Unselected(b) < Unselected(a)
  {
    if a != [] {
      SelectingShrinks(a[1..], b[1..]);
      if exists i :: 0 <= i < |a| && !a[i] && b[i] {
        var i :| 0 <= i < |a| && !a[i] && b[i];
        assert i > 0 ==> !a[1..][i - 1] && b[1..][i - 1];
      }
    }
  }

  function Enter(k: Marks, p: nat): Marks
    requires p < |k.visiting| == |k.selected|
  {
    k.(visiting := k.visiting[p := true], selected := k.selected[p := true])
  }

  function Leave(k: Marks, p: nat): Marks
    requires p < |k.visiting| == |k.left|
  {
    k.(visiting := k.visiting[p := false], left := k.left[p := k.clock], clock := k.clock + 1)
  }

  lemma EnterKeeps(m: Manifest, k: Marks, p: nat)
    requires Ranked(m, k) && p < |m.names| && !k.selected[p]
    ensures Ranked(m, Enter(k, p)) && Later(k, Enter(k, p)) && Unselected(Enter(k, p).selected) < Unselected(k.selected)
  {
    var e := Enter(k, p);
    SelectingShrinks(k.selected, e.selected);
    assert !k.visiting[p];
  }

  lemma LeaveKeeps(m: Manifest, k: Marks, p: nat)
    requires Ranked(m, k) && p < |m.names| && k.visiting[p]
    requires !MissingReference(m, p) && forall d: nat :: Links(m, p, d) ==> Finished(k, d)
    ensures Ranked(m, Leave(k, p)) && Later(k, Leave(k, p)) && Finished(Leave(k, p), p)
  {
    var e := Leave(k, p);
    assert k.selected[p];
    forall q: nat, d: nat | Links(m, q, d) && q < |m.names| && Finished(e, q)
      ensures Finished(e, d) && e.left[d] < e.left[q]
    {
      if q == p {
        assert Finished(k, d) && d != p;
      } else {
        assert Finished(k, q) && Finished(k, d);
      }
    }
  }

  /** The projects being visited are the callers on the stack. */
  ghost predicate OnStack(visiting: seq<bool>, stack: seq<nat>) {
    forall q :: 0 <= q < |visiting| ==> (visiting[q] <==> q in stack)
  }

  lemma OnStackPush(visiting: seq<bool>, stack: seq<nat>, p: nat)
    requires OnStack(visiting, stack) && p < |visiting|
    ensures OnStack(visiting[p := true], stack + [p])
    ensures visiting[p] ==> p in stack
    ensures !visiting[p] ==> visiting[p := true][p := false] == visiting
  {}

  lemma LaterTrans(a: Marks, b: Marks, c: Marks)
    requires |a.visiting| == |a.selected| == |a.left| == |b.visiting| == |b.selected| == |b.left|
    requires |b.left| == |c.visiting| == |c.selected| == |c.left|
    requires Later(a, b) && Later(b, c)
    ensures Later(a, c)
  {}

  lemma PathGrows(m: Manifest, stack: seq<nat>, p: nat, d: nat)
    requires IsPath(m, stack) && stack[|stack| - 1] == p && Links(m, p, d)
    ensures IsPath(m, stack + [d])
  {}

  lemma NamedUnique(m: Manifest, d: nat)
    requires ManifestOk(m) && d < |m.names|
    ensures Named(m.names, m.names[d]) == Some(d)
  {}

  /** Following links, the leaving numbers only fall. */
  lemma {:induction false} RankFalls(m: Manifest, k: Marks, path: seq<nat>)
    requires Ranked(m, k) && IsPath(m, path) && Finished(k, path[0])
    ensures Finished(k, path[|path| - 1])
    ensures |path| > 1 ==> k.left[path[|path| - 1]] < k.left[path[0]]
  {
    if |path| > 1 {
      assert Links(m, path[0], path[1]);
      assert IsPath(m, path[1..]) by {
        forall i | 0 <= i < |path[1..]| - 1 ensures Links(m, path[1..][i], path[1..][i + 1]) {
          assert Links(m, path[i + 1], path[i + 2]);
        }
      }
      RankFalls(m, k, path[1..]);
    }
  }

  /** The graph of finished projects has no cycle. */
  lemma RankedIsAcyclic(m: Manifest, k: Marks, path: seq<nat>)
    requires Ranked(m, k) && IsPath(m, path) && Finished(k, path[0])
    ensures !Cycle(m, path)
  {
    RankFalls(m, k, path);
  }

  /** Nothing is wrong behind a finished project: no cycle, no missing reference. */
  lemma FinishedIsBuildable(m: Manifest, k: Marks, p: nat)
    requires Ranked(m, k) && Finished(k, p)
    ensures !Unbuildable(m, p)
  {
    forall q: nat | Reaches(m, p, q)
      ensures q < |m.names| && Finished(k, q) && !MissingReference(m, q)
    {
      var path :| IsPath(m, path) && path[0] == p && path[|path| - 1] == q;
      RankFalls(m, k, path);
    }
    forall c | Cycle(m, c)
      ensures !Reaches(m, p, c[0])
    {
      if Reaches(m, p, c[0]) {
        RankedIsAcyclic(m, k, c);
      }
    }
  }

  /** The search stack together with a way back into it is a cycle. */
  lemma BackEdge(m: Manifest, stack: seq<nat>, p: nat) returns (cycle: seq<nat>)
    requires IsPath(m, stack + [p]) && p in stack
    ensures Cycle(m, cycle) && cycle[0] == p
  {
    var i :| 0 <= i < |stack| && stack[i] == p;
    var all := stack + [p];
    cycle := all[i..];
    forall j | 0 <= j < |cycle| - 1 ensures Links(m, cycle[j], cycle[j + 1]) {
      assert Links(m, all[i + j], all[i + j + 1]);
    }
  }

  // ---- library inputs taken as objects -------------------------------------------------

  /** p links d and asks for its objects instead of its library. */
  ghost predicate Feeds(m: Manifest, p: nat, d: nat) {
    && p < |m.refs| && d < |m.names|
    && exists r :: r in m.refs[p] && r.link && r.useInputs && r.target == m.names[d]
  }

  /** useobjects is set for what some selected project asks for, and for all that
      the finished ones do. */
  ghost predicate ObjectsOk(m: Manifest, k: Marks, use: seq<bool>)
    requires |k.visiting| == |k.selected|
    ensures ObjectsOk(m, k, use) ==> |use| == |m.names|
  {
    && |use| == |m.names|
    && (forall d :: 0 <= d < |use| && use[d] ==> exists p: nat :: p < |k.selected| && k.selected[p] && Feeds(m, p, d))
    && (forall p: nat, d: nat :: Feeds(m, p, d) && Finished(k, p) ==> use[d])
  }

  lemma ObjectsEnter(m: Manifest, k: Marks, use: seq<bool>, p: nat)
    requires |k.visiting| == |k.selected| && ObjectsOk(m, k, use) && p < |k.selected|
    ensures ObjectsOk(m, Enter(k, p), use)
  {
    var e := Enter(k, p);
    forall d | 0 <= d < |use| && use[d]
      ensures exists q: nat :: q < |e.selected| && e.selected[q] && Feeds(m, q, d)
    {
      var q: nat :| q < |k.selected| && k.selected[q] && Feeds(m, q, d);
      assert e.selected[q];
    }
  }

  lemma ObjectsLeave(m: Manifest, k: Marks, use: seq<bool>, p: nat)
    requires |k.visiting| == |k.selected| == |k.left| && ObjectsOk(m, k, use) && p < |k.selected|
    requires forall d: nat :: Feeds(m, p, d) ==> d < |use| && use[d]
    ensures ObjectsOk(m, Leave(k, p), use)
  {}

  lemma ObjectsSet(m: Manifest, k: Marks, use: seq<bool>, p: nat, d: nat)
    requires |k.visiting| == |k.selected| && ObjectsOk(m, k, use) && p < |k.selected| && k.selected[p] && Feeds(m, p, d)
    ensures ObjectsOk(m, k, use[d := true])
  {}

  ghost predicate Wider(was: seq<bool>, now: seq<bool>) {
    |was| == |now| && forall d :: 0 <= d < |was| && was[d] ==> now[d]
  }

  // ---- the order ------------------------------------------------------------------------

  /** The list so far: the done selected projects, each once, none after a project it links. */
  ghost predicate Listed(m: Manifest, selected: seq<bool>, done: seq<bool>, list: seq<nat>) {
    && |done| == |selected| == |m.names|
    && (forall k :: 0 <= k < |list| ==> list[k] < |m.names| && done[list[k]] && selected[list[k]])
    && (forall p :: 0 <= p < |m.names| && done[p] && selected[p] ==> p in list)
    && (forall k, l :: 0 <= k < l < |list| ==> list[k] != list[l] && !Links(m, list[l], list[k]))
    && (forall k, j :: 0 <= k < |list| && 0 <= j < |m.names| && selected[j] && !done[j] ==> !Links(m, j, list[k]))
  }

  /** A selected project that is not done links i. */
  ghost predicate Blocked(m: Manifest, selected: seq<bool>, done: seq<bool>, i: nat) {
    exists j :: 0 <= j < |done| && j < |selected| && !done[j] && selected[j] && Links(m, j, i)
  }

  lemma ListOne(m: Manifest, selected: seq<bool>, done: seq<bool>, list: seq<nat>, i: nat)
    requires Listed(m, selected, done, list) && i < |m.names| && !done[i]
    ensures !selected[i] ==> Listed(m, selected, done[i := true], list)
    ensures selected[i] && !Blocked(m, selected, done, i) ==> Listed(m, selected, done[i := true], list + [i])
  {}

  /** A sweep that has come to i: what it does not select is done, the rest is as before. */
  ghost predicate Swept(selected: seq<bool>, done0: seq<bool>, done: seq<bool>, i: nat) {
    && |done| == |done0| == |selected| && i <= |done|
    && (forall p :: 0 <= p < |done| && done0[p] ==> done[p])
    && (forall p :: i <= p < |done| ==> done[p] == done0[p])
    && (forall p :: 0 <= p < i && !selected[p] ==> done[p])
  }

  lemma SweptOne(selected: seq<bool>, done0: seq<bool>, done: seq<bool>, i: nat)
    requires Swept(selected, done0, done, i) && i < |done|
    ensures done[i] == done0[i] && forall p :: 0 <= p < |done| && done0[p] ==> done[p]
    ensures Swept(selected, done0, done[i := true], i + 1)
    ensures done[i] || selected[i] ==> Swept(selected, done0, done, i + 1)
  {}

  lemma SweptAll(selected: seq<bool>, done0: seq<bool>, done: seq<bool>)
    requires Swept(selected, done0, done, |done|)
    ensures |done| == |selected| && forall p :: 0 <= p < |done| && (done0[p] || !selected[p]) ==> done[p]
  {}

  lemma {:induction false} DoneOne(done: seq<bool>, i: nat)
    requires i < |done| && !done[i]
    ensures Unselected(done[i := true]) == Unselected(done) - 1
  {
    if i == 0 {
      assert done[i := true][1..] == done[1..];
    } else {
      assert done[i := true][1..] == done[1..][i - 1 := true];
      DoneOne(done[1..], i - 1);
    }
  }

  lemma {:induction false} AllDone(done: seq<bool>)
    ensures Unselected(done) == 0 <==> forall i :: 0 <= i < |done| ==> done[i]
  {
    if done != [] {
      AllDone(done[1..]);
      assert Unselected(done) == 0 ==> forall i :: 0 <= i < |done| ==> done[i] == if i == 0 then done[0] else done[1..][i - 1];
      assert (forall i :: 0 <= i < |done| ==> done[i]) ==> forall i :: 0 <= i < |done[1..]| ==> done[1..][i];
    }
  }

  /** The project left last: nothing still to be done links it. */
  ghost predicate LeftLast(k: Marks, done: seq<bool>, top: nat)
    requires |k.selected| == |k.left| == |done|
  {
    && top < |done| && !done[top] && k.selected[top]
    && forall p :: 0 <= p < |done| && !done[p] && k.selected[p] ==> k.left[p] <= k.left[top]
  }

  lemma {:induction false} SomeLeftLast(k: Marks, done: seq<bool>, n: nat) returns (top: nat)
    requires |k.selected| == |k.left| == |done| && n <= |done|
    requires exists p :: 0 <= p < n && !done[p] && k.selected[p]
    ensures top < n && !done[top] && k.selected[top]
    ensures forall p :: 0 <= p < n && !done[p] && k.selected[p] ==> k.left[p] <= k.left[top]
    decreases n
  {
    if exists p :: 0 <= p < n - 1 && !done[p] && k.selected[p] {
      top := SomeLeftLast(k, done, n - 1);
      if !done[n - 1] && k.selected[n - 1] && k.left[n - 1] > k.left[top] {
        top := n - 1;
      }
    } else {
      top := n - 1;
    }
  }

  lemma LastIsFree(m: Manifest, k: Marks, start: seq<bool>, done: seq<bool>, top: nat)
    requires Ranked(m, k) && |start| == |done| == |m.names| && LeftLast(k, start, top)
    requires forall p :: 0 <= p < |done| && start[p] ==> done[p]
    requires forall p :: 0 <= p < |m.names| && k.selected[p] ==> Finished(k, p)
    ensures !Blocked(m, k.selected, done, top)
  {}

  class Driver {
    const m: Manifest
    var visiting: seq<bool>
    var selected: seq<bool>
    var useObjects: seq<bool>
    ghost var left: seq<nat>
    ghost var clock: nat
    var linked: seq<nat> // linked_indices

    ghost function Now(): Marks
      reads this
    {
      Marks(visiting, selected, left, clock)
    }

    ghost predicate Valid()
      reads this
    {
      ManifestOk(m) && Ranked(m, Now()) && ObjectsOk(m, Now(), useObjects)
    }

    constructor (m: Manifest)
      requires ManifestOk(m)
      ensures Valid() && this.m == m && linked == []
      ensures forall p :: 0 <= p < |m.names| ==> !visiting[p] && !selected[p]
    {
      this.m := m;
      visiting, selected, useObjects := seq(|m.names|, _ => false), seq(|m.names|, _ => false), seq(|m.names|, _ => false);
      left, clock, linked := seq(|m.names|, _ => 0), 0, [];
    }

    /** select_project. `stack` is the chain of callers. Failure means that there
        really is a cycle, or a reference to a project that does not exist. */
    method SelectProject(p: nat, ghost stack: seq<nat>, ghost root: nat) returns (ok: bool)
      requires Valid() && p < |m.names| && IsPath(m, stack + [p])
      requires OnStack(visiting, stack)
      requires Reaches(m, root, p)
      modifies this`visiting, this`selected, this`useObjects, this`left, this`clock
      ensures ok ==> Valid() && visiting == old(visiting) && Finished(Now(), p) && Later(old(Now()), Now())
      ensures ok ==> Wider(old(useObjects), useObjects) && !Unbuildable(m, p)
      ensures ok ==> forall q :: 0 <= q < |m.names| && selected[q] && !old(selected)[q] ==> Reaches(m, root, q)
      ensures !ok ==> Unbuildable(m, root)
      decreases Unselected(selected), 1
    {
      hide Ranked, IsPath, Links, Unselected, ManifestOk, MissingReference, ObjectsOk, Feeds;
      OnStackPush(visiting, stack, p);
      if visiting[p] {
        ghost var cycle := BackEdge(m, stack, p);
        return false;
      }
      if selected[p] {
        FinishedIsBuildable(m, Now(), p);
        return true;
      }
      hide Later, Reaches, Cycle, OnStack, Finished, Unbuildable;
      ghost var before := Now();
      EnterKeeps(m, before, p);
      ObjectsEnter(m, before, useObjects, p);
      visiting, selected := visiting[p := true], selected[p := true];
      ghost var entered := Now();
      assert entered == Enter(before, p);
      ok := SelectRefs(p, stack + [p], root);
      if !ok {
        return;
      }
      ghost var searched := Now();
      LeaveKeeps(m, searched, p);
      ObjectsLeave(m, searched, useObjects, p);
      visiting := visiting[p := false];
      left, clock := left[p := clock], clock + 1;
      assert Now() == Leave(searched, p);
      FinishedIsBuildable(m, Now(), p);
      LaterTrans(before, entered, searched);
      LaterTrans(before, searched, Now());
    }

    /** The loop over the references of p. */
    method SelectRefs(p: nat, ghost stack: seq<nat>, ghost root: nat) returns (ok: bool)
      requires Valid() && p < |m.names| && visiting[p] && selected[p] && IsPath(m, stack) && stack[|stack| - 1] == p
      requires OnStack(visiting, stack)
      requires Reaches(m, root, p)
      modifies this`visiting, this`selected, this`useObjects, this`left, this`clock
      ensures ok ==> Valid() && visiting == old(visiting) && Later(old(Now()), Now())
      ensures ok ==> Wider(old(useObjects), useObjects) && forall d: nat :: Feeds(m, p, d) ==> d < |useObjects| && useObjects[d]
      ensures ok ==> !MissingReference(m, p) && forall d: nat :: Links(m, p, d) ==> Finished(Now(), d)
      ensures ok ==> forall q :: 0 <= q < |m.names| && selected[q] && !old(selected)[q] ==> Reaches(m, root, q)
      ensures !ok ==> Unbuildable(m, root)
      decreases Unselected(selected), 3
    {
      hide Ranked, Later, IsPath, Reaches, Unselected, OnStack, ObjectsOk, Feeds, Links, MissingReference, Unbuildable, Fed, Followed;
      var refs := m.refs[p];
      ok := true;
      LaterSelf();
      for i := 0 to |refs|
        invariant Valid() && visiting == old(visiting) && Later(old(Now()), Now()) && selected[p]
        invariant Wider(old(useObjects), useObjects) && forall j :: 0 <= j < i ==> Fed(useObjects, refs[j])
        invariant forall j :: 0 <= j < i ==> Followed(Now(), refs[j]) && refs[j].target in m.names
        invariant forall q :: 0 <= q < |m.names| && selected[q] && !old(selected)[q] ==> Reaches(m, root, q)
        invariant Unselected(selected) <= Unselected(old(selected))
      {
        ghost var mid, midUse := Now(), useObjects;
        assert refs[i] in m.refs[p];
        ok := SelectRef(p, refs[i], stack, root);
        if !ok {
          return;
        }
        LaterTrans(old(Now()), mid, Now());
        LaterShrinks(old(Now()), Now());
        LaterSelected(mid, Now());
        forall j | 0 <= j < i ensures Followed(Now(), refs[j]) && Fed(useObjects, refs[j]) {
          FollowedStill(refs[j], mid, Now(), midUse, useObjects);
        }
      }
      AllFollowed(p);
      AllFed(p);
      NoneMissing(p);
    }

    /** One reference: it must name a project, and a link reference is searched on. */
    method SelectRef(p: nat, r: Ref, ghost stack: seq<nat>, ghost root: nat) returns (ok: bool)
      requires Valid() && p < |m.names| && visiting[p] && selected[p] && IsPath(m, stack) && stack[|stack| - 1] == p
      requires OnStack(visiting, stack) && r in m.refs[p]
      requires Reaches(m, root, p)
      modifies this`visiting, this`selected, this`useObjects, this`left, this`clock
      ensures ok ==> Valid() && visiting == old(visiting) && Later(old(Now()), Now())
      ensures ok ==> Wider(old(useObjects), useObjects) && Fed(useObjects, r) && Followed(Now(), r) && r.target in m.names
      ensures ok ==> forall q :: 0 <= q < |m.names| && selected[q] && !old(selected)[q] ==> Reaches(m, root, q)
      ensures !ok ==> Unbuildable(m, root)
      decreases Unselected(selected), 2
    {
      hide Ranked, Later, IsPath, Reaches, Unselected, Named, OnStack, ObjectsOk, Feeds, Links, Unbuildable;
      LaterSelf();
      match Named(m.names, r.target) {
        case None =>
          MissingIsUnbuildable(p, r, root);
          return false;
        case Some(d) =>
          NamedUnique(m, d);
          ok := true;
          if r.link {
            if r.useInputs {
              FeedsBy(p, r, d);
              ObjectsSet(m, Now(), useObjects, p, d);
              useObjects := useObjects[d := true];
            }
            LinksBy(p, r, d);
            PathGrows(m, stack, p, d);
            ReachesStep(m, root, p, d);
            ok := SelectProject(d, stack, root);
          }
      }
    }

    lemma LinksBy(p: nat, r: Ref, d: nat)
      requires p < |m.refs| && d < |m.names| && r in m.refs[p] && r.link && r.target == m.names[d]
      ensures Links(m, p, d)
    {}

    lemma MissingIsUnbuildable(p: nat, r: Ref, root: nat)
      requires p < |m.refs| && r in m.refs[p] && r.target !in m.names && Reaches(m, root, p)
      ensures Unbuildable(m, root)
    {
      hide Reaches;
      assert MissingReference(m, p);
    }

    lemma NoneMissing(p: nat)
      requires p < |m.refs| && forall r :: r in m.refs[p] ==> r.target in m.names
      ensures !MissingReference(m, p)
    {}

    lemma FeedsBy(p: nat, r: Ref, d: nat)
      requires p < |m.refs| && d < |m.names| && r in m.refs[p] && r.link && r.useInputs && r.target == m.names[d]
      ensures Feeds(m, p, d)
    {}

    /** The project a reference asks objects of is marked. */
    ghost predicate Fed(use: seq<bool>, r: Ref) {
      r.link && r.useInputs ==> forall d: nat :: d < |m.names| && r.target == m.names[d] ==> d < |use| && use[d]
    }

    lemma AllFed(p: nat)
      requires p < |m.refs| && forall r :: r in m.refs[p] ==> Fed(useObjects, r)
      ensures forall d: nat :: Feeds(m, p, d) ==> d < |useObjects| && useObjects[d]
    {}

    lemma LaterSelected(a: Marks, b: Marks)
      requires |a.visiting| == |a.selected| == |a.left| == |b.visiting| == |b.selected| == |b.left| && Later(a, b)
      ensures forall p :: 0 <= p < |a.selected| && a.selected[p] ==> b.selected[p]
    {}

    lemma LaterSelf()
      requires Valid()
      ensures Later(Now(), Now())
    {}

    lemma LaterShrinks(a: Marks, b: Marks)
      requires |a.visiting| == |a.selected| == |a.left| == |b.visiting| == |b.selected| == |b.left| && Later(a, b)
      ensures Unselected(b.selected) <= Unselected(a.selected)
    {
      SelectingShrinks(a.selected, b.selected);
    }

    lemma LaterFinished(a: Marks, b: Marks)
      requires |a.visiting| == |a.selected| == |a.left| == |b.visiting| == |b.selected| == |b.left| && Later(a, b)
      ensures forall p: nat :: p < |a.selected| && Finished(a, p) ==> Finished(b, p)
    {}

    /** The project a link reference names is finished. */
    ghost predicate Followed(k: Marks, r: Ref)
      requires |k.visiting| == |k.selected|
    {
      r.link ==> forall d: nat :: d < |m.names| && r.target == m.names[d] ==> Finished(k, d)
    }

    lemma FollowedStill(r: Ref, a: Marks, b: Marks, use: seq<bool>, more: seq<bool>)
      requires |a.visiting| == |a.selected| == |a.left| == |b.visiting| == |b.selected| == |b.left| == |m.names| && Later(a, b)
      requires Followed(a, r) && Fed(use, r) && Wider(use, more)
      ensures Followed(b, r) && Fed(more, r)
    {
      LaterFinished(a, b);
    }

    lemma AllFollowed(p: nat)
      requires Valid() && p < |m.refs| && forall r :: r in m.refs[p] ==> Followed(Now(), r)
      ensures forall d: nat :: Links(m, p, d) ==> Finished(Now(), d)
    {}

    method IsBlocked(i: nat, done: seq<bool>) returns (blocked: bool)
      requires Valid() && i < |m.names| == |done|
      ensures blocked == Blocked(m, selected, done, i)
    {
      blocked := false;
      for j := 0 to |m.names|
        invariant !blocked
        invariant forall k :: 0 <= k < j && !done[k] && selected[k] ==> !Links(m, k, i)
      {
        if !done[j] && selected[j] {
          var refs := m.refs[j];
          for r := 0 to |refs|
            invariant forall q :: 0 <= q < r ==> !(refs[q].link && refs[q].target == m.names[i])
          {
            if refs[r].link && refs[r].target == m.names[i] {
              assert refs[r] in m.refs[j] && Links(m, j, i);
              return true;
            }
          }
        }
      }
    }

    /** One sweep of order_projects. */
    method Sweep(done0: seq<bool>, count0: nat) returns (done: seq<bool>, count: nat, progress: bool)
      requires Valid() && Listed(m, selected, done0, linked) && count0 + Unselected(done0) == |m.names|
      requires forall p :: 0 <= p < |m.names| && selected[p] ==> Finished(Now(), p)
      modifies this`linked
      ensures Listed(m, selected, done, linked) && count + Unselected(done) == |m.names|
      ensures progress || count == |m.names|
      ensures count0 < |m.names| ==> Unselected(done) < Unselected(done0)
    {
      hide Listed, Blocked, Ranked, LeftLast, Unselected, Finished, Swept;
      done, count, progress := done0, count0, false;
      AllDone(done0);
      ListedSizes(done0);
      ghost var some := exists p :: 0 <= p < |m.names| && !done0[p] && selected[p];
      ghost var top: nat := 0;
      if some {
        top := SomeLeftLast(Now(), done0, |m.names|);
        IsLeftLast(done0, top);
      }
      SweptNone(done0);
      for i := 0 to |m.names|
        invariant |done| == |m.names| && Listed(m, selected, done, linked) && count + Unselected(done) == |m.names|
        invariant Swept(selected, done0, done, i)
        invariant some && i > top ==> progress
        invariant Unselected(done) <= Unselected(done0)
        invariant progress ==> Unselected(done) < Unselected(done0)
      {
        SweptOne(selected, done0, done, i);
        if !done[i] {
          ListOne(m, selected, done, linked, i);
          DoneOne(done, i);
          if !selected[i] {
            done, count := done[i := true], count + 1;
          } else {
            var blocked := IsBlocked(i, done);
            if some && i == top {
              LastIsFree(m, Now(), done0, done, top);
            }
            if !blocked {
              linked := linked + [i];
              done, count, progress := done[i := true], count + 1, true;
            }
          }
        }
      }
      SweptAll(selected, done0, done);
      AllDone(done);
    }

    lemma SweptNone(done: seq<bool>)
      requires |done| == |selected|
      ensures Swept(selected, done, done, 0)
    {}

    lemma ListedSizes(done: seq<bool>)
      requires Listed(m, selected, done, linked)
      ensures |done| == |m.names| == |selected|
    {}

    lemma IsLeftLast(done: seq<bool>, top: nat)
      requires |selected| == |left| == |done| && top < |done| && !done[top] && selected[top]
      requires forall p :: 0 <= p < |done| && !done[p] && selected[p] ==> left[p] <= left[top]
      ensures LeftLast(Now(), done, top)
    {}

    /** order_projects: it cannot fail on a finished selection, and lists every
        selected project once, before the projects it links. */
    method OrderProjects() returns (ok: bool)
      requires Valid() && linked == []
      requires forall p :: 0 <= p < |m.names| && selected[p] ==> Finished(Now(), p)
      modifies this`linked
      ensures ok
      ensures forall k :: 0 <= k < |linked| ==> linked[k] < |m.names| && selected[linked[k]]
      ensures forall p :: 0 <= p < |m.names| && selected[p] ==> p in linked
      ensures forall k, l :: 0 <= k < l < |linked| ==> linked[k] != linked[l] && !Links(m, linked[l], linked[k])
    {
      var done := seq(|m.names|, _ => false);
      var count := 0;
      NoneDone(done);
      while count < |m.names|
        invariant Listed(m, selected, done, linked) && count + Unselected(done) == |m.names|
        decreases Unselected(done)
      {
        var progress;
        done, count, progress := Sweep(done, count);
        if !progress && count < |m.names| {
          return false;
        }
      }
      AllDone(done);
      ok := true;
    }

    lemma {:induction false} NoneDone(done: seq<bool>)
      requires forall i :: 0 <= i < |done| ==> !done[i]
      ensures Unselected(done) == |done|
    {
      if done != [] {
        NoneDone(done[1..]);
      }
    }

    /** Selection and ordering together, from the application. */
    method SelectAndOrder(app: nat) returns (ok: bool)
      requires Valid() && app < |m.names| && linked == []
      requires forall p :: 0 <= p < |m.names| ==> !visiting[p] && !selected[p]
      modifies this
      ensures ok ==> forall p: nat :: p in linked <==> p < |m.names| && Reaches(m, app, p)
      ensures ok ==> forall k, l :: 0 <= k < l < |linked| ==> linked[k] != linked[l] && !Links(m, linked[l], linked[k])
      ensures ok ==> forall path :: IsPath(m, path) && path[0] == app ==> !Cycle(m, path)
      ensures ok ==> |useObjects| == |m.names|
      ensures ok ==> forall d :: 0 <= d < |m.names| ==> (useObjects[d] <==> exists p: nat :: Reaches(m, app, p) && Feeds(m, p, d))
      ensures ok <==> !Unbuildable(m, app)
    {
      ReachesSelf(m, app);
      assert IsPath(m, [app]) && [] + [app] == [app];
      ok := SelectProject(app, [], app);
      if !ok {
        return;
      }
      Closed(app);
      FedExactly(app);
      ok := OrderProjects();
    }

    lemma FedExactly(app: nat)
      requires Valid() && forall q: nat :: Reaches(m, app, q) <==> q < |m.names| && selected[q]
      requires forall p :: 0 <= p < |m.names| ==> !visiting[p]
      ensures forall d :: 0 <= d < |m.names| ==> (useObjects[d] <==> exists p: nat :: Reaches(m, app, p) && Feeds(m, p, d))
    {
      hide Feeds, Reaches;
      forall d | 0 <= d < |m.names| && exists p: nat :: Reaches(m, app, p) && Feeds(m, p, d)
        ensures useObjects[d]
      {
        var p: nat :| Reaches(m, app, p) && Feeds(m, p, d);
        assert Finished(Now(), p);
      }
    }

    /** What is selected is what the application reaches, and that part has no cycle. */
    lemma Closed(app: nat)
      requires Valid() && app < |m.names| && Finished(Now(), app)
      ensures forall q: nat :: Reaches(m, app, q) ==> q < |m.names| && selected[q]
      ensures forall path :: IsPath(m, path) && path[0] == app ==> !Cycle(m, path)
    {
      forall q: nat | Reaches(m, app, q)
        ensures q < |m.names| && selected[q]
      {
        var path :| IsPath(m, path) && path[0] == app && path[|path| - 1] == q;
        RankFalls(m, Now(), path);
      }
      forall path | IsPath(m, path) && path[0] == app
        ensures !Cycle(m, path)
      {
        RankedIsAcyclic(m, Now(), path);
      }
    }
  }
}
