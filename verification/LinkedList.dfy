/**
 The in-place linked list of src/list.c, refined to sequences. Memory that the source frees is
 tracked in `freed` sets, so that touching a freed node is visible.
 */
module LinkedList {
  import opened Common

  /** struct list; the payload never changes, and a null payload is None. */
  class Node<T> {
    const data: Option<T>
    var next: Node?<T>

    constructor (data: Option<T>, next: Node?<T>)
      ensures this.data == data && this.next == next
    {
      this.data, this.next := data, next;
    }
  }

  /** The node after the `i`-th, null after the last. */
  function After<T>(nodes: seq<Node<T>>, i: nat): Node?<T> { if i + 1 < |nodes| then nodes[i + 1] else null }

  /** `head` starts a list made of exactly `nodes`. */
  ghost predicate Chain<T>(head: Node?<T>, nodes: seq<Node<T>>)
    reads nodes
  {
    && (head == if nodes == [] then null else nodes[0])
    && (forall i, j :: 0 <= i < j < |nodes| ==> nodes[i] != nodes[j])
    && (forall i :: 0 <= i < |nodes| ==> nodes[i].next == After(nodes, i))
  }

  /** The payloads of a list. */
  function Payloads<T>(nodes: seq<Node<T>>): seq<Option<T>> {
    seq(|nodes|, i requires 0 <= i < |nodes| => nodes[i].data)
  }

  // ---- the specification on sequences ----

  /** The elements that do not satisfy `drop`, in order. */
  function Keep<T>(s: seq<Option<T>>, drop: Option<T> -> bool): seq<Option<T>> {
    if s == [] then []
    else (if drop(s[0]) then [] else [s[0]]) + Keep(s[1..], drop)
  }

  /** The sequence without its first element that satisfies `drop`. */
  function DropFirst<T>(s: seq<Option<T>>, drop: Option<T> -> bool): seq<Option<T>> {
    if s == [] then []
    else if drop(s[0]) then s[1..]
    else [s[0]] + DropFirst(s[1..], drop)
  }

  lemma {:induction false} KeepAppend<T>(s: seq<Option<T>>, x: Option<T>, drop: Option<T> -> bool)
    ensures Keep(s + [x], drop) == Keep(s, drop) + if drop(x) then [] else [x]
  {
    if s == [] {
      assert Keep([x], drop) == (if drop(x) then [] else [x]) + Keep([x][1..], drop);
    } else {
      assert (s + [x])[1..] == s[1..] + [x];
      KeepAppend(s[1..], x, drop);
    }
  }

  lemma {:induction false} DropFirstAt<T>(s: seq<Option<T>>, k: nat, drop: Option<T> -> bool)
    requires k <= |s| && forall i :: 0 <= i < k ==> !drop(s[i])
    ensures k < |s| && drop(s[k]) ==> DropFirst(s, drop) == s[..k] + s[k + 1..]
    ensures k == |s| ==> DropFirst(s, drop) == s
    decreases k
  {
    if 0 < k {
      DropFirstAt(s[1..], k - 1, drop);
      if k < |s| && drop(s[k]) {
        assert s[1..][..k - 1] == s[1..k] && s[1..][k..] == s[k + 1..];
        assert [s[0]] + s[1..k] == s[..k];
      }
    }
  }

  /** Removing the first match until none is left is the same as removing every match. */
  lemma {:induction false} KeepIsDropFirstRepeated<T>(s: seq<Option<T>>, drop: Option<T> -> bool)
    ensures Keep(DropFirst(s, drop), drop) == Keep(s, drop)
    ensures |DropFirst(s, drop)| == |s| <==> Keep(s, drop) == s
    ensures |Keep(s, drop)| <= |s|
  {
    if s != [] {
      KeepIsDropFirstRepeated(s[1..], drop);
      if !drop(s[0]) {
        assert DropFirst(s, drop)[1..] == DropFirst(s[1..], drop);
        assert Keep(s, drop)[1..] == Keep(s[1..], drop);
        assert Keep(s, drop) == s <==> Keep(s[1..], drop) == s[1..];
      }
    }
  }

  predicate NullOr<T>(x: Option<T>, f: T -> bool) { x.None? || f(x.value) }

  /** list_filter drops what satisfies `f`, list_rfilter what does not; both drop null payloads. */
  function Filtered<T>(s: seq<Option<T>>, f: T -> bool): seq<Option<T>> {
    Keep(s, (x: Option<T>) => NullOr(x, f))
  }

  function RFiltered<T>(s: seq<Option<T>>, f: T -> bool): seq<Option<T>> {
    Keep(s, (x: Option<T>) => NullOr(x, (y: T) => !f(y)))
  }

  function NonNull<T>(s: seq<Option<T>>): seq<Option<T>> {
    Keep(s, (x: Option<T>) => x.None?)
  }

  /** An interleaving of `a` and `b`, told apart by `f`. */
  ghost predicate Splits<T>(s: seq<Option<T>>, a: seq<Option<T>>, b: seq<Option<T>>, f: T -> bool) {
    if s == [] then a == [] && b == []
    else if s[0].None? then Splits(s[1..], a, b, f)
    else if f(s[0].value) then b != [] && b[0] == s[0] && Splits(s[1..], a, b[1..], f)
    else a != [] && a[0] == s[0] && Splits(s[1..], a[1..], b, f)
  }

  /** The two filters split the non-null elements into complementary parts, each in order. */
  lemma {:induction false} FiltersComplement<T>(s: seq<Option<T>>, f: T -> bool)
    ensures Splits(s, Filtered(s, f), RFiltered(s, f), f)
  {
    if s != [] {
      FiltersComplement(s[1..], f);
      if s[0].Some? && f(s[0].value) {
        assert Filtered(s, f) == Filtered(s[1..], f) && RFiltered(s, f)[1..] == RFiltered(s[1..], f);
      } else if s[0].Some? {
        assert RFiltered(s, f) == RFiltered(s[1..], f) && Filtered(s, f)[1..] == Filtered(s[1..], f);
      } else {
        assert RFiltered(s, f) == RFiltered(s[1..], f) && Filtered(s, f) == Filtered(s[1..], f);
      }
    }
  }

  /** What the two filters and the test for null do with the first element. */
  lemma FilterHead<T>(s: seq<Option<T>>, f: T -> bool)
    requires s != []
    ensures Filtered(s, f) == if NullOr(s[0], f) then Filtered(s[1..], f) else [s[0]] + Filtered(s[1..], f)
    ensures RFiltered(s, f) ==
            if s[0].None? || !f(s[0].value) then RFiltered(s[1..], f) else [s[0]] + RFiltered(s[1..], f)
    ensures NonNull(s) == if s[0].None? then NonNull(s[1..]) else [s[0]] + NonNull(s[1..])
  {
  }

  /** Between them they lose and duplicate nothing but null payloads. */
  lemma {:induction false} FiltersConserve<T>(s: seq<Option<T>>, f: T -> bool)
    ensures multiset(Filtered(s, f)) + multiset(RFiltered(s, f)) == multiset(NonNull(s))
  {
    if s != [] {
      FiltersConserve(s[1..], f);
      FilterHead(s, f);
    }
  }

  // ---- the list operations ----

  /** list_add */
  method Add<T>(head: Node?<T>, data: Option<T>, ghost nodes: seq<Node<T>>) returns (n: Node<T>)
    requires Chain(head, nodes)
    ensures fresh(n) && Chain(n, [n] + nodes)
    ensures Payloads([n] + nodes) == [data] + Payloads(nodes)
  {
    n := new Node(data, head);
    ghost var all := [n] + nodes;
    assert forall i :: 0 < i < |all| ==> all[i] == nodes[i - 1];
    forall i | 0 <= i < |all|
      ensures all[i].next == After(all, i)
    {
      if 0 < i {
        assert nodes[i - 1].next == After(nodes, i - 1);
      }
    }
  }

  /** The nodes without the `k`-th. */
  function Without<T>(nodes: seq<Node<T>>, k: nat): seq<Node<T>>
    requires k < |nodes|
  {
    nodes[..k] + nodes[k + 1..]
  }

  lemma WithoutAt<T>(nodes: seq<Node<T>>, k: nat)
    requires k < |nodes|
    ensures forall i :: 0 <= i < |nodes| - 1 ==> Without(nodes, k)[i] == nodes[if i < k then i else i + 1]
    ensures Payloads(Without(nodes, k)) == Payloads(nodes)[..k] + Payloads(nodes)[k + 1..]
  {
  }

  /** The list without its first node. */
  lemma CutHead<T>(head: Node?<T>, nodes: seq<Node<T>>)
    requires Chain(head, nodes) && head != null
    ensures Chain(head.next, Without(nodes, 0))
  {
    WithoutAt(nodes, 0);
    assert head.next == After(nodes, 0);
  }

  /** `prev->next = ll->next`, where `ll` is the `k`-th node and `prev` the one before. */
  method CutAfter<T>(prev: Node<T>, ll: Node<T>, ghost head: Node?<T>, ghost nodes: seq<Node<T>>, ghost k: nat)
    requires Chain(head, nodes) && 0 < k < |nodes| && prev == nodes[k - 1] && ll == nodes[k]
    modifies prev`next
    ensures Chain(head, Without(nodes, k)) && prev.next == old(ll.next) == After(nodes, k)
    ensures ll.next == old(ll.next)
  {
    WithoutAt(nodes, k);
    assert ll.next == After(nodes, k);
    prev.next := ll.next;
    ghost var rest := Without(nodes, k);
    forall i | 0 <= i < |rest|
      ensures rest[i].next == After(rest, i)
    {
      if i + 1 < k {
        assert nodes[i] != nodes[k - 1] && nodes[i].next == After(nodes, i);
      } else if k <= i {
        assert nodes[i + 1] != nodes[k - 1] && nodes[i + 1].next == After(nodes, i + 1);
      }
    }
  }

  /** list_remove: exactly the first match goes, its node is freed, and nothing freed is touched. */
  method Remove<T>(head: Node?<T>, fits: Option<T> -> bool, ghost nodes: seq<Node<T>>)
    returns (res: Node?<T>, ghost rest: seq<Node<T>>)
    requires Chain(head, nodes)
    modifies nodes
    ensures Chain(res, rest)
    ensures Payloads(rest) == DropFirst(Payloads(nodes), fits)
    ensures rest == nodes || exists k :: 0 <= k < |nodes| && rest == Without(nodes, k)
  {
    var ll, prev := head, head;
    ghost var k := 0;
    while ll != null
      invariant 0 <= k <= |nodes|
      invariant ll == if k < |nodes| then nodes[k] else null
      invariant 0 < k ==> prev == nodes[k - 1]
      invariant Chain(head, nodes)
      invariant forall i :: 0 <= i < k ==> !fits(nodes[i].data)
      decreases |nodes| - k
    {
      if fits(ll.data) {
        rest := Without(nodes, k);
        DropFirstAt(Payloads(nodes), k, fits);
        WithoutAt(nodes, k);
        if ll == head {
          CutHead(head, nodes);
          res := head.next;
        } else {
          CutAfter(prev, ll, head, nodes, k);
          res := head;
        }
        return;
      }
      assert ll.next == After(nodes, k);
      prev := ll;
      ll := ll.next;
      k := k + 1;
    }
    DropFirstAt(Payloads(nodes), |nodes|, fits);
    res, rest := head, nodes;
  }

  /** Of `nodes`, the first `seen` have been looked at; `rest` is what is left, `k` of it kept. */
  ghost predicate Looked<T>(nodes: seq<Node<T>>, rest: seq<Node<T>>, k: nat, seen: nat, fits: Option<T> -> bool) {
    && k <= |rest| && seen <= |nodes|
    && rest[k..] == nodes[seen..]
    && (forall n :: n in rest ==> n in nodes)
    && Payloads(rest)[..k] == Keep(Payloads(nodes)[..seen], fits)
  }

  lemma LookedMore<T>(nodes: seq<Node<T>>, rest: seq<Node<T>>, k: nat, seen: nat, fits: Option<T> -> bool)
    requires Looked(nodes, rest, k, seen, fits) && k < |rest|
    ensures seen < |nodes| && rest[k] == nodes[seen]
    ensures fits(rest[k].data) ==> Looked(nodes, Without(rest, k), k, seen + 1, fits)
    ensures !fits(rest[k].data) ==> Looked(nodes, rest, k + 1, seen + 1, fits)
  {
    assert rest[k] == rest[k..][0] == nodes[seen..][0];
    KeepAppend(Payloads(nodes)[..seen], rest[k].data, fits);
    assert Payloads(nodes)[..seen + 1] == Payloads(nodes)[..seen] + [rest[k].data];
    assert rest[k + 1..] == rest[k..][1..] == nodes[seen..][1..] == nodes[seen + 1..];
    if fits(rest[k].data) {
      WithoutAt(rest, k);
      assert Without(rest, k)[k..] == rest[k + 1..];
      assert Payloads(Without(rest, k))[..k] == Payloads(rest)[..k];
    } else {
      assert Payloads(rest)[..k + 1] == Payloads(rest)[..k] + [rest[k].data];
    }
  }

  lemma LookedAll<T>(nodes: seq<Node<T>>, rest: seq<Node<T>>, k: nat, seen: nat, fits: Option<T> -> bool)
    requires Looked(nodes, rest, k, seen, fits) && k == |rest|
    ensures Payloads(rest) == Keep(Payloads(nodes), fits)
  {
    assert |nodes[seen..]| == 0;
    assert Payloads(rest)[..k] == Payloads(rest) && Payloads(nodes)[..seen] == Payloads(nodes);
  }

  ghost predicate Distinct<T>(nodes: seq<Node<T>>) {
    forall i, j :: 0 <= i < j < |nodes| ==> nodes[i] != nodes[j]
  }

  /** No node of the list has been freed. */
  ghost predicate NoneFreed<T>(rest: seq<Node<T>>, freed: set<Node<T>>) {
    forall i :: 0 <= i < |rest| ==> rest[i] !in freed
  }

  lemma LookedDrops<T>(nodes: seq<Node<T>>, rest: seq<Node<T>>, k: nat, seen: nat, freed: set<Node<T>>,
                       fits: Option<T> -> bool)
    requires Looked(nodes, rest, k, seen, fits) && NoneFreed(rest, freed) && k < |rest| && fits(rest[k].data)
    requires Distinct(rest)
    ensures Looked(nodes, Without(rest, k), k, seen + 1, fits) && NoneFreed(Without(rest, k), freed + {rest[k]})
    ensures forall i :: 0 <= i < |rest| - 1 ==> Without(rest, k)[i] == rest[if i < k then i else i + 1]
    ensures 0 < k ==> rest[k - 1] !in freed && rest[k - 1] in nodes
  {
    LookedMore(nodes, rest, k, seen, fits);
    WithoutAt(rest, k);
  }

  /**
   list_remove_all: every match goes, the rest keeps its order, and no freed node is read or
   written. `touchesFreed` looks at each access of the loop, in the order of the source.
   */
  method RemoveAll<T>(head: Node?<T>, fits: Option<T> -> bool, ghost nodes: seq<Node<T>>)
    returns (res: Node?<T>, ghost rest: seq<Node<T>>, ghost touchesFreed: bool)
    requires Chain(head, nodes)
    modifies nodes
    ensures Chain(res, rest)
    ensures Payloads(rest) == Keep(Payloads(nodes), fits)
    ensures !touchesFreed
  {
    var orig, prev, ll := head, head, head;
    rest, touchesFreed := nodes, false;
    ghost var k, seen := 0, 0;
    ghost var freed: set<Node<T>> := {};
    while ll != null
      invariant Chain(orig, rest) && Looked(nodes, rest, k, seen, fits)
      invariant ll == if k < |rest| then rest[k] else null
      invariant if 0 < k then prev == rest[k - 1] else prev == orig == ll
      invariant !touchesFreed && NoneFreed(rest, freed)
      decreases |nodes| - seen
    {
      assert seen < |nodes| by { LookedMore(nodes, rest, k, seen, fits); }
      touchesFreed := touchesFreed || ll in freed;  // ll->data
      if fits(ll.data) {
        LookedDrops(nodes, rest, k, seen, freed, fits);
        ghost var tmp, short := rest[k], Without(rest, k);
        if orig == ll {
          touchesFreed := touchesFreed || orig in freed;  // orig->next
          CutHead(orig, rest);
          orig := orig.next;
          prev, ll := orig, orig;
          freed := freed + {tmp};
        } else {
          touchesFreed := touchesFreed || ll in freed;  // ll->next
          freed := freed + {tmp};
          touchesFreed := touchesFreed || prev in freed;  // prev->next
          CutAfter(prev, ll, orig, rest, k);
          ll := prev.next;
        }
        rest := short;
      } else {
        LookedMore(nodes, rest, k, seen, fits);
        assert ll.next == After(rest, k);
        touchesFreed := touchesFreed || ll in freed;  // ll->next
        prev := ll;
        ll := ll.next;
        k := k + 1;
      }
      seen := seen + 1;
    }
    LookedAll(nodes, rest, k, seen, fits);
    res := orig;
  }

  /** The first two elements are both dropped. */
  predicate FirstTwoDropped<T>(s: seq<Option<T>>, drop: Option<T> -> bool) {
    2 <= |s| && drop(s[0]) && drop(s[1])
  }

  /** The branch of the loop that drops the head: `prev` is the head itself or a node dropped before. */
  method CutFront<T>(prev: Node<T>, ll: Node<T>, ghost rest: seq<Node<T>>) returns (next: Node?<T>)
    requires Chain(ll, rest) && (prev == ll || prev !in rest)
    modifies prev`next
    ensures Chain(next, Without(rest, 0))
  {
    WithoutAt(rest, 0);
    assert ll.next == After(rest, 0);
    next := ll.next;
    prev.next := ll.next;
    ghost var short := Without(rest, 0);
    forall i | 0 <= i < |short|
      ensures short[i].next == After(short, i)
    {
      assert rest[i + 1] != rest[0] && rest[i + 1] != prev && rest[i + 1].next == After(rest, i + 1);
    }
  }

  /** The branch that drops `ll`, the `k`-th node, whether or not it is the head. */
  method DropNode<T>(prev: Node<T>, ll: Node<T>, orig: Node<T>, ghost rest: seq<Node<T>>, ghost k: nat)
    returns (orig': Node?<T>, next: Node?<T>)
    requires Chain(orig, rest) && k < |rest| && ll == rest[k]
    requires if k == 0 then prev == ll || prev !in rest else prev == rest[k - 1]
    modifies prev`next
    ensures Chain(orig', Without(rest, k))
    ensures next == if k + 1 < |rest| then Without(rest, k)[k] else null
  {
    WithoutAt(rest, k);
    assert ll.next == After(rest, k);
    if ll == orig {
      next := CutFront(prev, ll, rest);
      orig' := next;
    } else {
      CutAfter(prev, ll, orig, rest, k);
      orig', next := orig, prev.next;
    }
  }

  /**
   How far the loop of `Filter` is: what is left of the list, how many of those are kept for good,
   how many nodes it has looked at, which it has freed, and whether it has written through one.
   */
  datatype Progress<T> = Progress(rest: seq<Node<T>>, kept: nat, seen: nat, freed: set<Node<T>>, touched: bool)

  /** The next node is unlinked through `prev` and freed. */
  ghost function AfterDrop<T>(g: Progress<T>, prev: Node<T>): Progress<T>
    requires g.kept < |g.rest|
  {
    Progress(Without(g.rest, g.kept), g.kept, g.seen + 1, g.freed + {g.rest[g.kept]},
             g.touched || prev in g.freed)
  }

  ghost function AfterKeep<T>(g: Progress<T>): Progress<T> {
    g.(kept := g.kept + 1, seen := g.seen + 1)
  }

  /**
   The loop of `Filter` on values. Until something is kept, `prev` is the first node, which is
   freed as soon as it has been looked at; after that it is the last kept node.
   */
  ghost predicate Filtering<T>(nodes: seq<Node<T>>, g: Progress<T>, prev: Node?<T>, drop: Option<T> -> bool) {
    && Looked(nodes, g.rest, g.kept, g.seen, drop)
    && (forall i :: g.kept <= i < |g.rest| ==> g.rest[i] !in g.freed)
    && (g.touched <==> 2 <= g.seen && drop(nodes[0].data) && drop(nodes[1].data))
    && (if 0 < g.kept then prev == g.rest[g.kept - 1] && prev !in g.freed && (g.seen == 1 ==> !drop(nodes[0].data))
        else
          && g.rest == nodes[g.seen..]
          && prev == (if nodes == [] then null else nodes[0])
          && (prev in g.freed <==> 0 < g.seen)
          && (forall i :: 0 <= i < g.seen ==> drop(nodes[i].data)))
  }

  lemma StillUnfreed<T>(rest: seq<Node<T>>, k: nat, freed: set<Node<T>>)
    requires k < |rest| && Distinct(rest)
    requires forall i :: k <= i < |rest| ==> rest[i] !in freed
    ensures forall i :: k <= i < |rest| - 1 ==> Without(rest, k)[i] !in freed + {rest[k]}
  {
    forall i | k <= i < |rest| - 1
      ensures Without(rest, k)[i] !in freed + {rest[k]}
    {
      assert Without(rest, k)[i] == rest[i + 1];
    }
  }

  /** Nothing has been kept yet: `prev` is the first node, and so is what is dropped, or `prev` is freed. */
  lemma FilterDropsHead<T>(nodes: seq<Node<T>>, g: Progress<T>, prev: Node<T>, drop: Option<T> -> bool)
    requires Filtering(nodes, g, prev, drop) && g.kept == 0 < |g.rest| && drop(g.rest[0].data)
    requires Distinct(nodes) && Distinct(g.rest)
    ensures Filtering(nodes, AfterDrop(g, prev), prev, drop)
  {
    LookedMore(nodes, g.rest, 0, g.seen, drop);
    StillUnfreed(g.rest, 0, g.freed);
    WithoutHead(nodes, g.rest, g.seen);
  }

  lemma WithoutHead<T>(nodes: seq<Node<T>>, rest: seq<Node<T>>, seen: nat)
    requires seen < |nodes| && rest == nodes[seen..]
    ensures Without(rest, 0) == nodes[seen + 1..]
  {
    assert Without(rest, 0) == rest[1..];
  }

  lemma FilterDropsInner<T>(nodes: seq<Node<T>>, g: Progress<T>, prev: Node<T>, drop: Option<T> -> bool)
    requires Filtering(nodes, g, prev, drop) && 0 < g.kept < |g.rest| && drop(g.rest[g.kept].data)
    requires Distinct(g.rest)
    ensures Filtering(nodes, AfterDrop(g, prev), prev, drop)
  {
    LookedMore(nodes, g.rest, g.kept, g.seen, drop);
    StillUnfreed(g.rest, g.kept, g.freed);
    assert Without(g.rest, g.kept)[g.kept - 1] == g.rest[g.kept - 1];
  }

  lemma FilterDrops<T>(nodes: seq<Node<T>>, g: Progress<T>, prev: Node<T>, drop: Option<T> -> bool)
    requires Filtering(nodes, g, prev, drop) && g.kept < |g.rest| && drop(g.rest[g.kept].data)
    requires Distinct(nodes) && Distinct(g.rest)
    ensures Filtering(nodes, AfterDrop(g, prev), prev, drop)
  {
    if g.kept == 0 {
      FilterDropsHead(nodes, g, prev, drop);
    } else {
      FilterDropsInner(nodes, g, prev, drop);
    }
  }

  lemma FilterKeeps<T>(nodes: seq<Node<T>>, g: Progress<T>, prev: Node?<T>, drop: Option<T> -> bool)
    requires Filtering(nodes, g, prev, drop) && g.kept < |g.rest| && !drop(g.rest[g.kept].data)
    ensures Filtering(nodes, AfterKeep(g), g.rest[g.kept], drop)
  {
    LookedMore(nodes, g.rest, g.kept, g.seen, drop);
  }

  /** No node is left to look at. */
  lemma FilterDone<T>(nodes: seq<Node<T>>, g: Progress<T>, prev: Node?<T>, drop: Option<T> -> bool)
    requires Filtering(nodes, g, prev, drop) && g.kept == |g.rest|
    ensures Payloads(g.rest) == Keep(Payloads(nodes), drop)
    ensures g.touched <==> FirstTwoDropped(Payloads(nodes), drop)
  {
    LookedAll(nodes, g.rest, g.kept, g.seen, drop);
    assert |nodes[g.seen..]| == 0;
  }

  /** Where `prev` is while there is a node to look at. */
  lemma FilterPrev<T>(nodes: seq<Node<T>>, g: Progress<T>, prev: Node?<T>, drop: Option<T> -> bool)
    requires Filtering(nodes, g, prev, drop) && g.kept < |g.rest| && Distinct(nodes)
    ensures g.seen < |nodes| && prev != null && prev in nodes
    ensures if g.kept == 0 then prev == g.rest[0] || prev !in g.rest else prev == g.rest[g.kept - 1]
  {
    LookedMore(nodes, g.rest, g.kept, g.seen, drop);
  }

  /**
   The loop that list_filter and list_rfilter share. Unlike list_remove_all it leaves `prev` on
   a dropped head. The list it returns is right all the same, but it writes through a node that
   it has freed exactly when the first two elements are both dropped.
   */
  method Filter<T>(head: Node?<T>, drop: Option<T> -> bool, ghost nodes: seq<Node<T>>)
    returns (res: Node?<T>, ghost rest: seq<Node<T>>, ghost touchesFreed: bool)
    requires Chain(head, nodes)
    modifies nodes
    ensures Chain(res, rest)
    ensures Payloads(rest) == Keep(Payloads(nodes), drop)
    ensures touchesFreed <==> FirstTwoDropped(Payloads(nodes), drop)
  {
    var orig, prev, ll := head, head, head;
    ghost var g := Progress(nodes, 0, 0, {}, false);
    while ll != null
      invariant Chain(orig, g.rest) && Filtering(nodes, g, prev, drop)
      invariant ll == if g.kept < |g.rest| then g.rest[g.kept] else null
      decreases |nodes| - g.seen
    {
      FilterPrev(nodes, g, prev, drop);
      if drop(ll.data) {
        FilterDrops(nodes, g, prev, drop);
        orig, ll := DropNode(prev, ll, orig, g.rest, g.kept);
        g := AfterDrop(g, prev);
      } else {
        FilterKeeps(nodes, g, prev, drop);
        assert ll.next == After(g.rest, g.kept);
        prev := ll;
        ll := ll.next;
        g := AfterKeep(g);
      }
    }
    FilterDone(nodes, g, prev, drop);
    res, rest, touchesFreed := orig, g.rest, g.touched;
  }

  /** list_filter */
  method ListFilter<T>(head: Node?<T>, fn: T -> bool, ghost nodes: seq<Node<T>>)
    returns (res: Node?<T>, ghost rest: seq<Node<T>>)
    requires Chain(head, nodes)
    modifies nodes
    ensures Chain(res, rest) && Payloads(rest) == Filtered(Payloads(nodes), fn)
  {
    ghost var touches;
    res, rest, touches := Filter(head, (x: Option<T>) => NullOr(x, fn), nodes);
  }

  /** list_rfilter */
  method ListRFilter<T>(head: Node?<T>, fn: T -> bool, ghost nodes: seq<Node<T>>)
    returns (res: Node?<T>, ghost rest: seq<Node<T>>)
    requires Chain(head, nodes)
    modifies nodes
    ensures Chain(res, rest) && Payloads(rest) == RFiltered(Payloads(nodes), fn)
  {
    ghost var touches;
    res, rest, touches := Filter(head, (x: Option<T>) => NullOr(x, (y: T) => !fn(y)), nodes);
  }
}
