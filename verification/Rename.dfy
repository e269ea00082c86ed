/**
 Renaming on the remote store (src/rename.c over the remote effects of src/unlink.c, src/rmdir.c
 and src/mkdir.c). The store is flat: it maps whole paths to files and directory markers.
 Any primitive may fail at any time; `injected` records that one did.
 */
module Rename {
  import opened Common
  import opened Transfer

  type Name = string
  type TreePath = seq<Name>

  datatype Node = File(object: Object) | Dir

  type Store = map<TreePath, Node>

  predicate Under(a: TreePath, p: TreePath) { |a| <= |p| && p[..|a|] == a }

  predicate Disjoint(a: TreePath, b: TreePath) { !Under(a, b) && !Under(b, a) }

  /** The path that takes the place of `p` when `a` is renamed to `b`. */
  function Rebase(a: TreePath, b: TreePath, p: TreePath): TreePath
    requires Under(a, p)
  {
    b + p[|a|..]
  }

  function NodeAt(s: Store, p: TreePath): Option<Node> { if p in s then Some(s[p]) else None }

  /** A directory that may be removed: a marker with nothing below it. */
  predicate EmptyDir(s: Store, p: TreePath) {
    p in s && s[p].Dir? && forall q :: q in s && Under(p, q) ==> q == p
  }

  function Below(s: Store, a: TreePath): set<TreePath> { set p | p in s && Under(a, p) }

  // ---- what a rename, complete or not, may do ----

  /** Nothing outside the two trees changes. */
  ghost predicate Framed(s: Store, t: Store, a: TreePath, b: TreePath) {
    forall p :: !Under(a, p) && !Under(b, p) ==> NodeAt(t, p) == NodeAt(s, p)
  }

  /** Every file of the old tree is at its old or at its new place. */
  ghost predicate Kept(s: Store, t: Store, a: TreePath, b: TreePath) {
    forall p :: p in s && Under(a, p) && s[p].File? ==>
      NodeAt(t, p) == Some(s[p]) || NodeAt(t, Rebase(a, b, p)) == Some(s[p])
  }

  /** The old tree gains nothing. */
  ghost predicate Shrinks(s: Store, t: Store, a: TreePath) {
    forall p :: Under(a, p) && p in t ==> NodeAt(s, p) == Some(t[p])
  }

  ghost predicate Safe(s: Store, t: Store, a: TreePath, b: TreePath) {
    Framed(s, t, a, b) && Kept(s, t, a, b) && Shrinks(s, t, a)
  }

  /** The tree at `a` is as it was. */
  ghost predicate Untouched(s: Store, t: Store, a: TreePath) {
    forall p :: Under(a, p) ==> NodeAt(t, p) == NodeAt(s, p)
  }

  // ---- what a complete rename does ----

  /** Every node of the old tree is at its new place, the old tree is gone, the rest is as it was. */
  ghost predicate Moved(s: Store, t: Store, a: TreePath, b: TreePath) {
    && (forall p :: Under(a, p) ==> p !in t)
    && (forall p :: Under(b, p) ==>
          NodeAt(t, p) == if Rebase(b, a, p) in s then NodeAt(s, Rebase(b, a, p)) else NodeAt(s, p))
    && Framed(s, t, a, b)
  }

  /** Every node below `a` hangs from directories, and no name is one of the two that loops skip. */
  ghost predicate Rooted(s: Store, a: TreePath) {
    forall p :: p in s && Under(a, p) && p != a ==>
      && p[..|p| - 1] in s && s[p[..|p| - 1]].Dir?
      && p[|p| - 1] != "." && p[|p| - 1] != ".."
  }

  /** Where both trees have a node, both have a file or both have a directory. */
  ghost predicate NoCollision(s: Store, a: TreePath, b: TreePath) {
    forall p :: p in s && Under(a, p) && Rebase(a, b, p) in s ==> (s[p].Dir? <==> s[Rebase(a, b, p)].Dir?)
  }

  ghost predicate Movable(s: Store, a: TreePath, b: TreePath) {
    a in s && Rooted(s, a) && NoCollision(s, a, b)
  }

  // ---- paths ----

  lemma ChildUnder(a: TreePath, n: Name, p: TreePath)
    ensures Under(a + [n], p) <==> Under(a, p) && |a| < |p| && p[|a|] == n
  {
    if Under(a + [n], p) {
      assert p[..|a|] == p[..|a| + 1][..|a|] == a;
      assert p[|a|] == p[..|a| + 1][|a|];
    }
    if Under(a, p) && |a| < |p| && p[|a|] == n {
      assert p[..|a| + 1] == p[..|a|] + [p[|a|]];
    }
  }

  lemma ChildRebase(a: TreePath, b: TreePath, n: Name, p: TreePath)
    requires Under(a + [n], p)
    ensures Under(a, p) && Rebase(a + [n], b + [n], p) == Rebase(a, b, p)
  {
    ChildUnder(a, n, p);
    assert p[|a|..] == [n] + p[|a| + 1..];
  }

  lemma RebaseInverts(a: TreePath, b: TreePath, p: TreePath)
    requires Under(a, p)
    ensures Under(b, Rebase(a, b, p)) && Rebase(b, a, Rebase(a, b, p)) == p
  {
    assert Rebase(a, b, p)[|b|..] == p[|a|..];
    assert p == p[..|a|] + p[|a|..];
  }

  lemma RebaseKeepsChild(a: TreePath, b: TreePath, n: Name, p: TreePath)
    requires Under(a, p)
    ensures Under(a + [n], p) <==> Under(b + [n], Rebase(a, b, p))
  {
    ChildUnder(a, n, p);
    ChildUnder(b, n, Rebase(a, b, p));
    RebaseInverts(a, b, p);
  }

  lemma BothAbove(a: TreePath, b: TreePath, p: TreePath)
    requires Under(a, p) && Under(b, p)
    ensures Under(a, b) || Under(b, a)
  {
    if |a| <= |b| {
      assert b[..|a|] == p[..|b|][..|a|] == p[..|a|];
    } else {
      assert a[..|b|] == p[..|a|][..|b|] == p[..|b|];
    }
  }

  lemma DisjointApart(a: TreePath, b: TreePath, p: TreePath)
    requires Disjoint(a, b)
    ensures !(Under(a, p) && Under(b, p))
  {
    if Under(a, p) && Under(b, p) {
      BothAbove(a, b, p);
    }
  }

  lemma ChildrenDisjoint(a: TreePath, b: TreePath, n: Name, m: Name)
    requires Disjoint(a, b)
    ensures Disjoint(a + [n], b + [m])
  {
    if Under(a + [n], b + [m]) {
      ChildUnder(a, n, b + [m]);
      ChildUnder(b, m, b + [m]);
      DisjointApart(a, b, b + [m]);
    }
    if Under(b + [m], a + [n]) {
      ChildUnder(b, m, a + [n]);
      ChildUnder(a, n, a + [n]);
      DisjointApart(a, b, a + [n]);
    }
  }

  // ---- safety composes ----

  /** A child renamed safely, from a state where its own tree was untouched, is a safe step. */
  lemma SafeChild(s: Store, u: Store, t: Store, a: TreePath, b: TreePath, n: Name)
    requires Disjoint(a, b)
    requires Safe(s, u, a, b) && Untouched(s, u, a + [n]) && Safe(u, t, a + [n], b + [n])
    ensures Safe(s, t, a, b)
  {
    forall p
      ensures !Under(a, p) && !Under(b, p) ==> NodeAt(t, p) == NodeAt(s, p)
      ensures Under(a, p) && p in t ==> NodeAt(s, p) == Some(t[p])
    {
      ChildUnder(a, n, p);
      ChildUnder(b, n, p);
      DisjointApart(a, b, p);
    }
    forall p | p in s && Under(a, p) && s[p].File?
      ensures NodeAt(t, p) == Some(s[p]) || NodeAt(t, Rebase(a, b, p)) == Some(s[p])
    {
      ChildUnder(a, n, p);
      ChildUnder(b, n, p);
      DisjointApart(a, b, p);
      var q := Rebase(a, b, p);
      RebaseInverts(a, b, p);
      DisjointApart(a, b, q);
      RebaseKeepsChild(a, b, n, p);
      ChildUnder(a, n, q);
      if Under(a + [n], p) {
        ChildRebase(a, b, n, p);
        assert NodeAt(u, p) == Some(s[p]);
      }
    }
  }

  /** What the child does leaves its siblings alone. */
  lemma SiblingUntouched(s: Store, u: Store, t: Store, a: TreePath, b: TreePath, n: Name, m: Name)
    requires Disjoint(a, b) && n != m
    requires Untouched(s, u, a + [m]) && Framed(u, t, a + [n], b + [n])
    ensures Untouched(s, t, a + [m])
  {
    forall p | Under(a + [m], p)
      ensures NodeAt(t, p) == NodeAt(s, p)
    {
      ChildUnder(a, n, p);
      ChildUnder(a, m, p);
      ChildUnder(b, n, p);
      DisjointApart(a, b, p);
    }
  }

  // ---- completeness composes ----

  /** The children named in `done` are moved, and `b` is a directory. */
  ghost predicate PartMoved(s: Store, u: Store, a: TreePath, b: TreePath, done: set<Name>) {
    && (forall p :: Under(a, p) ==>
          NodeAt(u, p) == if p != a && |a| < |p| && p[|a|] in done then None else NodeAt(s, p))
    && (forall p :: Under(b, p) ==>
          NodeAt(u, p) ==
          if p == b then Some(Dir)
          else if |b| < |p| && p[|b|] in done && Rebase(b, a, p) in s then NodeAt(s, Rebase(b, a, p))
          else NodeAt(s, p))
    && Framed(s, u, a, b)
  }

  lemma PartStart(s: Store, u: Store, a: TreePath, b: TreePath)
    requires Disjoint(a, b) && Movable(s, a, b) && s[a].Dir?
    requires u == if b in s then s else s[b := Dir]
    ensures PartMoved(s, u, a, b, {})
  {
    assert Rebase(a, b, a) == b;
    forall p
      ensures Under(a, p) ==> NodeAt(u, p) == NodeAt(s, p)
    {
      DisjointApart(a, b, p);
    }
  }

  /** A child not moved yet is itself ready to be moved. */
  lemma PartMovable(s: Store, u: Store, a: TreePath, b: TreePath, done: set<Name>, n: Name)
    requires Movable(s, a, b) && PartMoved(s, u, a, b, done) && n !in done && a + [n] in s
    ensures Movable(u, a + [n], b + [n]) && NodeAt(u, a + [n]) == Some(s[a + [n]])
  {
    forall p | Under(a + [n], p)
      ensures NodeAt(u, p) == NodeAt(s, p)
      ensures Rebase(a + [n], b + [n], p) == Rebase(a, b, p)
      ensures Under(a, p) && Under(b, Rebase(a, b, p))
      ensures NodeAt(u, Rebase(a, b, p)) == NodeAt(s, Rebase(a, b, p))
    {
      ChildUnder(a, n, p);
      ChildRebase(a, b, n, p);
      RebaseInverts(a, b, p);
      RebaseKeepsChild(a, b, n, p);
      ChildUnder(b, n, Rebase(a, b, p));
    }
    forall p | p in u && Under(a + [n], p) && p != a + [n]
      ensures p[..|p| - 1] in u && u[p[..|p| - 1]].Dir?
      ensures p[|p| - 1] != "." && p[|p| - 1] != ".."
    {
      var q := p[..|p| - 1];
      ParentUnder(a + [n], p);
      assert NodeAt(u, q) == NodeAt(s, q);
      assert NodeAt(u, p) == NodeAt(s, p);
      ChildUnder(a, n, p);
    }
    assert Under(a + [n], a + [n]);
  }

  lemma ParentUnder(a: TreePath, p: TreePath)
    requires Under(a, p) && p != a
    ensures |a| < |p| && Under(a, p[..|p| - 1])
  {
    assert p[..|p|] == p;
    assert |a| < |p| ==> p[..|p| - 1][..|a|] == p[..|a|];
  }

  /** Moving one more child. */
  lemma PartStep(s: Store, u: Store, t: Store, a: TreePath, b: TreePath, done: set<Name>, n: Name)
    requires Disjoint(a, b) && PartMoved(s, u, a, b, done) && n !in done
    ensures Moved(u, t, a + [n], b + [n]) ==> PartMoved(s, t, a, b, done + {n})
  {
    if !Moved(u, t, a + [n], b + [n]) {
      return;
    }
    forall p
      ensures Under(a, p) ==>
                NodeAt(t, p) == if p != a && |a| < |p| && p[|a|] in done + {n} then None else NodeAt(s, p)
      ensures !Under(a, p) && !Under(b, p) ==> NodeAt(t, p) == NodeAt(s, p)
    {
      ChildUnder(a, n, p);
      ChildUnder(b, n, p);
      DisjointApart(a, b, p);
    }
    forall p | Under(b, p)
      ensures NodeAt(t, p) ==
              if p == b then Some(Dir)
              else if |b| < |p| && p[|b|] in done + {n} && Rebase(b, a, p) in s then NodeAt(s, Rebase(b, a, p))
              else NodeAt(s, p)
    {
      PartStepTarget(s, u, t, a, b, done, n, p);
    }
  }

  lemma PartStepTarget(s: Store, u: Store, t: Store, a: TreePath, b: TreePath, done: set<Name>, n: Name, p: TreePath)
    requires Disjoint(a, b) && PartMoved(s, u, a, b, done) && n !in done && Under(b, p)
    ensures Moved(u, t, a + [n], b + [n]) ==>
              NodeAt(t, p) ==
              if p == b then Some(Dir)
              else if |b| < |p| && p[|b|] in done + {n} && Rebase(b, a, p) in s then NodeAt(s, Rebase(b, a, p))
              else NodeAt(s, p)
  {
    if !Moved(u, t, a + [n], b + [n]) {
      return;
    }
    ChildUnder(b, n, p);
    ChildUnder(a, n, p);
    DisjointApart(a, b, p);
    if Under(b + [n], p) {
      ChildRebase(b, a, n, p);
      var q := Rebase(b, a, p);
      RebaseInverts(b, a, p);
      RebaseKeepsChild(b, a, n, p);
      ChildUnder(a, n, q);
      assert NodeAt(u, q) == NodeAt(s, q);
      assert NodeAt(u, p) == NodeAt(s, p);
    } else {
      assert !Under(a + [n], p);
      assert NodeAt(t, p) == NodeAt(u, p);
    }
  }

  /** Whatever is below a directory has an ancestor among its children. */
  lemma {:induction false} ChildPresent(s: Store, a: TreePath, p: TreePath)
    requires Rooted(s, a) && p in s && Under(a, p) && p != a
    ensures |a| < |p| && a + [p[|a|]] in s && p[|a|] != "." && p[|a|] != ".."
    decreases |p|
  {
    ParentUnder(a, p);
    var q := p[..|p| - 1];
    if q == a {
      assert p == q + [p[|p| - 1]];
    } else {
      ChildPresent(s, a, q);
      assert q[|a|] == p[|a|];
    }
  }

  /** Every child that the loop of rename_directory does not skip is among `done`. */
  ghost predicate AllDone(s: Store, a: TreePath, done: set<Name>) {
    forall n :: n != "." && n != ".." && a + [n] in s ==> n in done
  }

  /** With every child moved, the old directory is empty, and removing it completes the move. */
  lemma PartFinish(s: Store, u: Store, a: TreePath, b: TreePath, done: set<Name>)
    requires Disjoint(a, b) && Movable(s, a, b) && s[a].Dir? && PartMoved(s, u, a, b, done)
    ensures AllDone(s, a, done) ==> EmptyDir(u, a) && Moved(s, u - {a}, a, b)
  {
    if !AllDone(s, a, done) {
      return;
    }
    assert Under(a, a) && NodeAt(u, a) == Some(Dir);
    forall p | Under(a, p) && p != a
      ensures p !in u
    {
      if p in s {
        ChildPresent(s, a, p);
      }
    }
    forall p | Under(b, p)
      ensures NodeAt(u - {a}, p) == if Rebase(b, a, p) in s then NodeAt(s, Rebase(b, a, p)) else NodeAt(s, p)
    {
      DisjointApart(a, b, p);
      var q := Rebase(b, a, p);
      RebaseInverts(b, a, p);
      if p == b {
        assert q == a;
      } else if q in s {
        assert q != a;
        ChildPresent(s, a, q);
        assert |b| < |p| by { ParentUnder(b, p); }
        assert q[|a|] == p[|b|];
      }
    }
  }

  lemma FileIsWholeTree(s: Store, a: TreePath, p: TreePath)
    requires Rooted(s, a) && a in s && s[a].File? && Under(a, p) && p != a
    ensures p !in s
  {
    if p in s {
      FileHasNoChild(s, a, p);
    }
  }

  lemma FileMovedTarget(s: Store, a: TreePath, b: TreePath, p: TreePath)
    requires Disjoint(a, b) && Rooted(s, a) && a in s && s[a].File? && Under(b, p)
    ensures NodeAt(s[b := s[a]] - {a}, p) ==
            if Rebase(b, a, p) in s then NodeAt(s, Rebase(b, a, p)) else NodeAt(s, p)
  {
    DisjointApart(a, b, p);
    assert Under(a, a);
    assert Rebase(a, b, a) == b;
    RebaseInverts(b, a, p);
    if p == b {
      assert Rebase(b, a, p) == a;
    } else {
      assert Rebase(b, a, p) != a;
      FileIsWholeTree(s, a, Rebase(b, a, p));
    }
  }

  /** Copying a file and removing the original is a complete move of a tree with one node. */
  lemma FileMoved(s: Store, a: TreePath, b: TreePath)
    requires Disjoint(a, b) && Rooted(s, a) && a in s && s[a].File?
    ensures Moved(s, s[b := s[a]] - {a}, a, b)
  {
    assert Under(a, a) && Under(b, b);
    forall p | Under(a, p)
      ensures p !in s[b := s[a]] - {a}
    {
      DisjointApart(a, b, p);
      if p != a {
        FileIsWholeTree(s, a, p);
      }
    }
    forall p | Under(b, p)
      ensures NodeAt(s[b := s[a]] - {a}, p) == if Rebase(b, a, p) in s then NodeAt(s, Rebase(b, a, p)) else NodeAt(s, p)
    {
      FileMovedTarget(s, a, b, p);
    }
  }

  lemma {:induction false} FileHasNoChild(s: Store, a: TreePath, p: TreePath)
    requires Rooted(s, a) && a in s && s[a].File? && p in s && Under(a, p) && p != a
    ensures false
    decreases |p|
  {
    ParentUnder(a, p);
    if p[..|p| - 1] != a {
      FileHasNoChild(s, a, p[..|p| - 1]);
    }
  }

  /** A complete rename has one possible result. */
  lemma MovedIsExact(s: Store, t: Store, u: Store, a: TreePath, b: TreePath)
    requires Moved(s, t, a, b) && Moved(s, u, a, b)
    ensures t == u
  {
    forall p
      ensures NodeAt(t, p) == NodeAt(u, p)
    {
      assert Under(a, p) || Under(b, p) || (!Under(a, p) && !Under(b, p));
      if Under(a, p) {
        assert p !in t && p !in u;
      }
    }
    assert forall p :: (p in t <==> NodeAt(t, p).Some?) && (p in u <==> NodeAt(u, p).Some?);
    assert t.Keys == u.Keys;
    forall p | p in t
      ensures t[p] == u[p]
    {
      assert NodeAt(t, p) == NodeAt(u, p);
    }
  }

  /** Over a free destination, renaming back restores the store: no node is lost or gained. */
  lemma MovedBack(s: Store, t: Store, a: TreePath, b: TreePath)
    requires Disjoint(a, b) && Moved(s, t, a, b) && Below(s, b) == {}
    ensures Moved(t, s, b, a)
  {
    forall p | Under(b, p)
      ensures p !in s
    {
      assert p !in Below(s, b);
    }
    forall p | Under(a, p)
      ensures NodeAt(s, p) == if Rebase(a, b, p) in t then NodeAt(t, Rebase(a, b, p)) else NodeAt(t, p)
    {
      RebaseInverts(a, b, p);
      var q := Rebase(a, b, p);
      assert q !in Below(s, b);
      assert NodeAt(t, q) == if p in s then NodeAt(s, p) else NodeAt(s, q);
    }
  }

  // ---- single steps are safe ----

  lemma SafeNothing(s: Store, a: TreePath, b: TreePath)
    ensures Safe(s, s, a, b)
  {
  }

  /** Whatever happens at the destination alone is safe. */
  lemma SafeTarget(s: Store, t: Store, a: TreePath, b: TreePath, at: TreePath)
    requires Disjoint(a, b) && Under(b, at)
    requires forall p :: p != at ==> NodeAt(t, p) == NodeAt(s, p)
    ensures Safe(s, t, a, b)
    ensures Untouched(s, t, a)
  {
    DisjointApart(a, b, at);
  }

  /** An original may go once its copy is in place. */
  lemma SafeUnlink(s: Store, t: Store, a: TreePath, b: TreePath)
    requires Disjoint(a, b) && a in s && s[a].File?
    requires t == s[b := s[a]] || t == s[b := s[a]] - {a}
    ensures Safe(s, t, a, b)
  {
    assert Under(b, b) && Under(a, a);
    assert Rebase(a, b, a) == b;
    forall p | Under(a, p)
      ensures p != b
    {
      DisjointApart(a, b, b);
    }
  }

  /** Removing an empty directory after a safe run is safe. */
  lemma SafeRmdir(s: Store, u: Store, t: Store, a: TreePath, b: TreePath)
    requires Safe(s, u, a, b) && EmptyDir(u, a) && t == u - {a}
    requires Disjoint(a, b)
    ensures Safe(s, t, a, b)
  {
    assert Under(a, a);
    forall p | p in s && Under(a, p) && s[p].File?
      ensures NodeAt(t, p) == Some(s[p]) || NodeAt(t, Rebase(a, b, p)) == Some(s[p])
    {
      RebaseInverts(a, b, p);
      DisjointApart(a, b, a);
    }
  }

  // ---- the remote store and its primitives ----

  /** dpl_namei. `stale` stands for a type variable that a failed lookup leaves as it was. */
  datatype Lookup = Found(dir: bool) | NotFound(stale: bool) | LookupFailed

  class RemoteStore {
    var store: Store
    ghost var trace: seq<Store>   // every state of the store so far
    ghost var injected: bool      // some primitive failed although it could have succeeded

    constructor (s: Store)
      ensures store == s && trace == [s] && !injected
    {
      store, trace, injected := s, [s], false;
    }

    twostate predicate Logged()
      reads this
    {
      trace == old(trace) + [store] && (old(injected) ==> injected)
    }

    method Namei(p: TreePath) returns (r: Lookup)
      modifies this`injected
      ensures old(injected) ==> injected
      ensures !injected ==> (r.Found? <==> p in store) && (r.Found? ==> r.dir == store[p].Dir?) && !r.LookupFailed?
      ensures r.Found? ==> p in store && r.dir == store[p].Dir?
    {
      var fault: bool := *;
      var stale: bool := *;
      if fault {
        injected := true;
        var absent: bool := *;
        return if absent then NotFound(stale) else LookupFailed;
      }
      r := if p in store then Found(store[p].Dir?) else NotFound(stale);
    }

    /** dfs_fcopy_timeout: a failed copy may leave anything but a directory at the destination. */
    method Copy(src: TreePath, dst: TreePath) returns (ok: bool)
      modifies this
      ensures Logged()
      ensures ok ==> src in old(store) && old(store)[src].File? && store == old(store)[dst := old(store)[src]]
      ensures !ok ==> forall p :: p != dst ==> NodeAt(store, p) == NodeAt(old(store), p)
      ensures !injected && src in old(store) && old(store)[src].File? && !HasDir(old(store), dst) ==> ok
    {
      var fault: bool := *;
      ok := false;
      if fault {
        injected := true;
        var partial: bool := *;
        var garbage: Option<Object> := *;
        if partial && !HasDir(store, dst) {
          store := Put(store, dst, if garbage.Some? then Some(File(garbage.value)) else None);
        }
      } else if src in store && store[src].File? && !HasDir(store, dst) {
        store := store[dst := store[src]];
        ok := true;
      }
      trace := trace + [store];
    }

    /** dfs_unlink_timeout: a call that reports failure may still have removed the file. */
    method Unlink(p: TreePath) returns (ok: bool)
      modifies this
      ensures Logged()
      ensures store == old(store) || (HasFile(old(store), p) && store == old(store) - {p})
      ensures ok ==> HasFile(old(store), p) && store == old(store) - {p}
      ensures !injected && HasFile(old(store), p) ==> ok
    {
      var fault: bool := *;
      ok := false;
      if fault {
        injected := true;
        var done: bool := *;
        if done && HasFile(store, p) {
          store := store - {p};
        }
      } else if HasFile(store, p) {
        store := store - {p};
        ok := true;
      }
      trace := trace + [store];
    }

    /** dfs_mkdir_timeout: a call that reports failure may still have made the directory. */
    method Mkdir(p: TreePath) returns (ok: bool)
      modifies this
      ensures Logged()
      ensures store == old(store) || (p !in old(store) && store == old(store)[p := Dir])
      ensures ok ==> p !in old(store) && store == old(store)[p := Dir]
      ensures !injected && p !in old(store) ==> ok
    {
      var fault: bool := *;
      ok := false;
      if fault {
        injected := true;
        var done: bool := *;
        if done && p !in store {
          store := store[p := Dir];
        }
      } else if p !in store {
        store := store[p := Dir];
        ok := true;
      }
      trace := trace + [store];
    }

    /** dfs_rmdir_timeout: it removes only a directory with nothing in it. */
    method Rmdir(p: TreePath) returns (ok: bool)
      modifies this
      ensures Logged()
      ensures store == old(store) || (EmptyDir(old(store), p) && store == old(store) - {p})
      ensures !injected && EmptyDir(old(store), p) ==> store == old(store) - {p}
    {
      var fault: bool := *;
      ok := false;
      if fault {
        injected := true;
        var done: bool := *;
        if done && EmptyDir(store, p) {
          store := store - {p};
        }
      } else if EmptyDir(store, p) {
        store := store - {p};
        ok := true;
      }
      trace := trace + [store];
    }

    /** Chdir, opendir and the readdir loop: the names of the children, in any order. */
    method List(p: TreePath) returns (ok: bool, names: seq<Name>)
      modifies this`injected
      ensures old(injected) ==> injected
      ensures ok ==> HasDir(store, p) && Listing(store, p, names)
      ensures !ok ==> names == []
      ensures !injected && HasDir(store, p) ==> ok
      ensures !injected && ok ==> forall n :: p + [n] in store ==> n in names
    {
      var fault: bool := *;
      ok, names := false, [];
      if fault {
        injected := true;
        var opens: bool := *;
        // dpl_readdir failing at once looks like an empty directory
        ok := opens && HasDir(store, p);
      } else if HasDir(store, p) {
        ok := true;
        names := Children(p);
        var cut: bool := *;
        if cut {
          // dpl_readdir failing later looks like the end of the directory
          injected := true;
          var k :| 0 <= k <= |names|;
          names := names[..k];
        }
      }
    }

    /** What holds of every rename, whatever fails in it, and of every state on the way. */
    twostate predicate Ran(a: TreePath, b: TreePath)
      reads this
    {
      && Safe(old(store), store, a, b)
      && old(trace) <= trace
      && AllSafe(old(store), trace, |old(trace)|, a, b)
      && (old(injected) ==> injected)
    }

    /** rename_file: -1 when the copy failed, 1 when only the removal did. */
    method RenameFile(a: TreePath, b: TreePath) returns (ret: int)
      requires Disjoint(a, b)
      modifies this
      ensures Ran(a, b)
      ensures ret == 0 || ret == 1 || ret == -1
      ensures ret == -1 ==> forall p :: p != b ==> NodeAt(store, p) == NodeAt(old(store), p)
      ensures ret != -1 ==> HasFile(old(store), a) && NodeAt(store, b) == Some(old(store)[a])
      ensures ret == 0 ==> store == old(store)[b := old(store)[a]] - {a}
      ensures !injected && HasFile(old(store), a) && Movable(old(store), a, b) ==>
                ret == 0 && Moved(old(store), store, a, b)
    {
      ghost var s := store;
      assert Under(b, b);
      var ok := Copy(a, b);
      if !ok {
        SafeTarget(s, store, a, b, b);
        if HasFile(s, a) && Movable(s, a, b) {
          assert Under(a, a) && Rebase(a, b, a) == b;
        }
        return -1;
      }
      SafeUnlink(s, store, a, b);
      ghost var copied := store;
      assert a != b;
      ok := Unlink(a);
      SafeUnlink(s, store, a, b);
      if HasFile(s, a) && Movable(s, a, b) {
        FileMoved(s, a, b);
      }
      ret := if ok then 0 else 1;
    }

    /**
     The body of the loop in rename_directory: look the child up, then rename it as what it
     is. `go` is false when the lookup fails, which ends the loop.
     */
    method RenameEntry(a: TreePath, b: TreePath) returns (go: bool, ret: int)
      requires Disjoint(a, b)
      modifies this
      ensures Ran(a, b)
      ensures !go ==> ret == -1 && store == old(store)
      ensures !injected && Movable(old(store), a, b) ==> go && ret == 0 && Moved(old(store), store, a, b)
      decreases |Below(store, a)|, 1
    {
      SafeNothing(store, a, b);
      var found := Namei(a);
      if found.LookupFailed? {
        return false, -1;
      }
      go := true;
      var dir := if found.Found? then found.dir else found.stale;
      if dir {
        ret := RenameDirectory(a, b);
      } else {
        ret := RenameFile(a, b);
      }
    }

    /** rename_directory makes the new directory if it is not there. */
    method EnsureDirectory(a: TreePath, b: TreePath) returns (ok: bool)
      requires Disjoint(a, b)
      modifies this
      ensures Ran(a, b) && Untouched(old(store), store, a)
      ensures !injected ==> ok
      ensures ok ==> b in store
      ensures !injected && Movable(old(store), a, b) && HasDir(old(store), a) ==> PartMoved(old(store), store, a, b, {})
    {
      ghost var s := store;
      assert Under(b, b);
      SafeNothing(s, a, b);
      var found := Namei(b);
      if found.LookupFailed? {
        return false;
      }
      ok := true;
      if found.NotFound? {
        ok := Mkdir(b);
        SafeTarget(s, store, a, b, b);
      }
      if Movable(s, a, b) && HasDir(s, a) && !injected {
        assert Under(a, a) && Rebase(a, b, a) == b;
        PartStart(s, store, a, b);
      }
    }

    /** The end of rename_directory, whose outcome the source ignores: remove the old directory. */
    method RemoveOld(a: TreePath, b: TreePath, ghost s: Store, ghost from: nat, ghost done: set<Name>)
      requires Disjoint(a, b) && Safe(s, store, a, b) && AllSafe(s, trace, from, a, b)
      requires b in store
      requires !injected && Movable(s, a, b) ==>
                 && HasDir(s, a) && PartMoved(s, store, a, b, done)
                 && AllDone(s, a, done)
      modifies this
      ensures Safe(s, store, a, b) && AllSafe(s, trace, from, a, b) && b in store
      ensures old(trace) <= trace && (old(injected) ==> injected)
      ensures !injected && Movable(s, a, b) ==> Moved(s, store, a, b)
    {
      ghost var u := store;
      if !injected && Movable(s, a, b) {
        PartFinish(s, u, a, b, done);
      }
      var _ := Rmdir(a);
      if store != u {
        SafeRmdir(s, u, store, a, b);
      }
      assert Under(a, a);
    }

    /** rename_directory */
    method RenameDirectory(a: TreePath, b: TreePath) returns (ret: int)
      requires Disjoint(a, b)
      modifies this
      ensures Ran(a, b)
      ensures !injected && Movable(old(store), a, b) && HasDir(old(store), a) ==>
                ret == 0 && Moved(old(store), store, a, b)
      ensures ret == 0 ==> b in store
      decreases |Below(store, a)|, 0
    {
      ghost var s := store;
      var ok := EnsureDirectory(a, b);
      if !ok {
        return -1;
      }
      var names;
      ok, names := List(a);
      if !ok {
        // the status of chdir or opendir
        var rc: int := *;
        return if rc != 0 then rc else 1;
      }
      ghost var listed := store;
      forall n: Name
        ensures Under(a, a + [n]) && NodeAt(listed, a + [n]) == NodeAt(s, a + [n])
        ensures Untouched(s, listed, a + [n])
      {
        UntouchedChild(s, listed, a, n);
      }
      assert Under(a, a);
      ghost var done: set<Name> := {};
      ret := 0;
      for i := 0 to |names|
        invariant Ran(a, b)
        invariant HasDir(store, a) && a in s && b in store
        invariant forall j :: i <= j < |names| ==> Untouched(s, store, a + [names[j]])
        invariant forall n :: n in names[..i] && n != "." && n != ".." ==> n in done
        invariant forall j :: i <= j < |names| ==> names[j] !in done
        invariant !injected && Movable(s, a, b) ==> ret == 0 && HasDir(s, a) && PartMoved(s, store, a, b, done)
        invariant !injected ==> forall n :: a + [n] in s ==> n in names
      {
        if names[i] == "." || names[i] == ".." {
          continue;
        }
        var n := names[i];
        ghost var u, before := store, trace;
        ChildrenDisjoint(a, b, n, n);
        BelowShrinks(s, u, a, n);
        if !injected && Movable(s, a, b) {
          PartMovable(s, u, a, b, done, n);
        }
        var go;
        go, ret := RenameEntry(a + [n], b + [n]);
        SafeChild(s, u, store, a, b, n);
        AllSafeChild(s, u, before, trace, |old(trace)|, a, b, n);
        if !go {
          return -1;
        }
        StillThere(u, store, a, b, n);
        assert b in store;
        forall j | i < j < |names|
          ensures Untouched(s, store, a + [names[j]])
        {
          SiblingUntouched(s, u, store, a, b, n, names[j]);
        }
        if !injected && Movable(s, a, b) {
          PartStep(s, u, store, a, b, done, n);
        }
        done := done + {n};
      }
      if ret == -1 {
        return;
      }
      RemoveOld(a, b, s, |old(trace)|, done);
      ret := 0;
    }

    /**
     dfs_rename. The test of its first lookup is `! DPL_SUCCESS == rc`, which lets failures
     through, so that the type it goes on with is then whatever the variable held.
     */
    method Rename(a: TreePath, b: TreePath) returns (ret: int)
      requires Disjoint(a, b)
      modifies this
      ensures Ran(a, b)
      ensures !injected && Movable(old(store), a, b) ==> ret == 0 && Moved(old(store), store, a, b)
    {
      SafeNothing(store, a, b);
      var found := Namei(a);
      var dir: bool := *;
      var unsupported: bool := *;
      match found {
        case Found(d) => dir, unsupported := d, false;
        case NotFound(stale) => dir := stale;
        case LookupFailed =>
      }
      if unsupported {
        return -1;
      }
      if dir {
        ret := RenameDirectory(a, b);
      } else {
        ret := RenameFile(a, b);
      }
      ret := if ret == -1 then -1 else 0;
    }

    /** The children of a directory, each once. */
    method Children(p: TreePath) returns (names: seq<Name>)
      ensures Listing(store, p, names)
      ensures forall n :: p + [n] in store ==> n in names
    {
      names := [];
      var todo := set q | q in store && |q| == |p| + 1 && q[..|p|] == p :: q[|p|];
      ghost var all := todo;
      while todo != {}
        invariant forall n :: n in all <==> n in todo || n in names
        invariant forall n :: !(n in todo && n in names)
        invariant forall i, j :: 0 <= i < j < |names| ==> names[i] != names[j]
        decreases todo
      {
        var n :| n in todo;
        todo, names := todo - {n}, names + [n];
      }
      forall n
        ensures p + [n] in store <==> n in names
      {
        ChildName(store, p, n, all);
      }
    }
  }

  /** The states logged after the first `from` are all safe to be in. */
  ghost predicate AllSafe(s: Store, trace: seq<Store>, from: nat, a: TreePath, b: TreePath) {
    forall k :: from <= k < |trace| ==> Safe(s, trace[k], a, b)
  }

  lemma AllSafeChild(s: Store, u: Store, before: seq<Store>, after: seq<Store>, from: nat, a: TreePath, b: TreePath,
                     n: Name)
    requires Disjoint(a, b)
    requires Safe(s, u, a, b) && Untouched(s, u, a + [n])
    requires from <= |before| && before <= after && AllSafe(s, before, from, a, b)
    requires AllSafe(u, after, |before|, a + [n], b + [n])
    ensures AllSafe(s, after, from, a, b)
  {
    forall k | from <= k < |after|
      ensures Safe(s, after[k], a, b)
    {
      if |before| <= k {
        SafeChild(s, u, after[k], a, b, n);
      } else {
        assert after[k] == before[k];
      }
    }
  }

  lemma UntouchedChild(s: Store, t: Store, a: TreePath, n: Name)
    requires Untouched(s, t, a)
    ensures Under(a, a + [n]) && NodeAt(t, a + [n]) == NodeAt(s, a + [n]) && Untouched(s, t, a + [n])
  {
    forall p | Under(a + [n], p)
      ensures Under(a, p)
    {
      ChildUnder(a, n, p);
    }
    assert Under(a + [n], a + [n]);
  }

  lemma StillThere(u: Store, t: Store, a: TreePath, b: TreePath, n: Name)
    requires Disjoint(a, b) && Framed(u, t, a + [n], b + [n])
    ensures NodeAt(t, a) == NodeAt(u, a) && NodeAt(t, b) == NodeAt(u, b)
  {
    assert Under(a, a) && Under(b, b);
    ChildUnder(a, n, a);
    ChildUnder(b, n, a);
    DisjointApart(a, b, a);
    ChildUnder(a, n, b);
    ChildUnder(b, n, b);
  }

  lemma BelowShrinks(s: Store, u: Store, a: TreePath, n: Name)
    requires Shrinks(s, u, a) && a in s
    ensures |Below(u, a + [n])| < |Below(s, a)|
  {
    forall p | p in Below(u, a + [n])
      ensures p in Below(s, a) && p != a
    {
      ChildUnder(a, n, p);
    }
    assert Under(a, a);
    assert Below(u, a + [n]) <= Below(s, a) - {a};
    SubsetSize(Below(u, a + [n]), Below(s, a) - {a});
  }

  lemma {:induction false} SubsetSize<T>(x: set<T>, y: set<T>)
    requires x <= y
    ensures |x| <= |y|
  {
    if x != {} {
      var e :| e in x;
      SubsetSize(x - {e}, y - {e});
    }
  }

  predicate HasFile(s: Store, p: TreePath) { p in s && s[p].File? }

  predicate HasDir(s: Store, p: TreePath) { p in s && s[p].Dir? }

  /** Distinct names of children that are there. */
  ghost predicate Listing(s: Store, p: TreePath, names: seq<Name>) {
    && (forall n :: n in names ==> p + [n] in s)
    && (forall i, j :: 0 <= i < j < |names| ==> names[i] != names[j])
  }

  lemma ChildName(s: Store, p: TreePath, n: Name, all: set<Name>)
    requires all == set q | q in s && |q| == |p| + 1 && q[..|p|] == p :: q[|p|]
    ensures n in all <==> p + [n] in s
  {
    var q := p + [n];
    assert |q| == |p| + 1 && q[..|p|] == p && q[|p|] == n;
    if n in all {
      var r :| r in s && |r| == |p| + 1 && r[..|p|] == p && r[|p|] == n;
      assert r == r[..|p|] + [r[|p|]];
    }
  }
}
