/**
 The ring of temporary strings (src/tmpstr.c) and how long a string in it lives, with the bound
 this puts on src/rename.c, which hands ring strings to its own recursive call.
 */
module TmpStr {
  import opened Common

  const TMPSTR_MAX: nat := 2048
  const TMPSTR_NB: nat := 32

  /** What `vsnprintf` leaves of a text. */
  function Cut(text: string): string {
    if |text| < TMPSTR_MAX then text else text[..TMPSTR_MAX - 1]
  }

  lemma CutIsPrefix(text: string)
    ensures Cut(text) <= text
    ensures |Cut(text)| == if |text| <= 2047 then |text| else 2047
  {
  }

  /** The ring as a value: the slots and the index of the last one handed out. */
  datatype Ring = Ring(slots: seq<string>, current: nat)

  predicate Valid(r: Ring) { |r.slots| == TMPSTR_NB && r.current < TMPSTR_NB }

  function Printf(r: Ring, text: string): (r': Ring)
    requires Valid(r)
    ensures Valid(r')
  {
    var slot := if r.current + 1 >= TMPSTR_NB then 0 else r.current + 1;
    Ring(r.slots[slot := Cut(text)], slot)
  }

  function PrintfAll(r: Ring, texts: seq<string>): (r': Ring)
    requires Valid(r)
    ensures Valid(r')
    decreases |texts|
  {
    if texts == [] then r else PrintfAll(Printf(r, texts[0]), texts[1..])
  }

  /** Two calls of one thread return the same slot exactly when they are a multiple of 32 calls apart. */
  lemma {:induction false} SameSlotIff(r: Ring, texts: seq<string>)
    requires Valid(r)
    ensures PrintfAll(r, texts).current == (r.current + |texts|) % TMPSTR_NB
    ensures PrintfAll(r, texts).current == r.current <==> |texts| % TMPSTR_NB == 0
    decreases |texts|
  {
    if texts != [] {
      SameSlotIff(Printf(r, texts[0]), texts[1..]);
    }
  }

  /** The last of `k` calls that came back to the slot of the call before them. */
  function LastBack(k: nat): nat
    requires TMPSTR_NB <= k
  {
    k - k % TMPSTR_NB - 1
  }

  lemma {:induction false} PrintfAllAppend(r: Ring, texts: seq<string>, text: string)
    requires Valid(r)
    ensures PrintfAll(r, texts + [text]) == Printf(PrintfAll(r, texts), text)
    decreases |texts|
  {
    if texts == [] {
      assert PrintfAll(r, [text]) == PrintfAll(Printf(r, text), []);
    } else {
      assert (texts + [text])[1..] == texts[1..] + [text];
      PrintfAllAppend(Printf(r, texts[0]), texts[1..], text);
    }
  }

  lemma LastBackStep(k: nat)
    requires 0 < k
    ensures TMPSTR_NB <= k && k % TMPSTR_NB == 0 ==> LastBack(k) == k - 1
    ensures TMPSTR_NB <= k && k % TMPSTR_NB != 0 ==> TMPSTR_NB <= k - 1 && LastBack(k) == LastBack(k - 1)
    ensures k < TMPSTR_NB ==> k % TMPSTR_NB != 0
  {
  }

  /** The slot of `r` after one more text: overwritten when the number of texts is a multiple of 32. */
  lemma OneMore(r: Ring, front: seq<string>, last: string)
    requires Valid(r)
    ensures PrintfAll(r, front + [last]).slots[r.current] ==
            if (|front| + 1) % TMPSTR_NB == 0 then Cut(last) else PrintfAll(r, front).slots[r.current]
  {
    PrintfAllAppend(r, front, last);
    SameSlotIff(r, front + [last]);
  }

  /**
   A string outlives 31 further calls and no more: from the 32nd on its slot holds the text
   of the latest call that came back to it.
   */
  lemma {:induction false} Lifetime(r: Ring, texts: seq<string>)
    requires Valid(r)
    ensures PrintfAll(r, texts).slots[r.current] ==
            if |texts| < TMPSTR_NB then r.slots[r.current] else Cut(texts[LastBack(|texts|)])
    decreases |texts|
  {
    if texts != [] {
      var n := |texts| - 1;
      assert texts == texts[..n] + [texts[n]];
      Lifetime(r, texts[..n]);
      OneMore(r, texts[..n], texts[n]);
      LastBackStep(|texts|);
    }
  }

  // ---- the ring under a recursive rename ----

  /**
   What a rename meets: a directory, or a file. For a file with an entry in the path table, `freed`
   is the text that pentry_get_parent leaves in the ring. It comes from an entry that the table has
   already freed, so it may be anything.
   */
  datatype Tree =
    | Leaf(name: string, freed: Option<string>)
    | Node(name: string, children: seq<Tree>)

  /** A text put into the ring: made from the arguments of a call, or from a freed entry. */
  datatype Print = Own(text: string) | Freed(text: string)

  /** `"%s/%s"`, without the slash that the source cuts off a name. */
  function Child(dir: string, name: string): string { dir + "/" + name }

  /**
   The texts that the recursive call on `t`, from `src` to `dst`, puts into the ring when every
   primitive succeeds. A directory prints two paths for each of its entries; dfs_unlink and
   dfs_rmdir print the path of the cache file.
   */
  function Prints(t: Tree, src: string, dst: string, cacheDir: string): (ps: seq<Print>)
    ensures |ps| == Allocs(t)
    decreases t, 0
  {
    match t
    case Leaf(_, freed) => [Own(Child(cacheDir, src))] + if freed.Some? then [Freed(freed.value)] else []
    case Node(_, children) => PrintsOf(children, src, dst, cacheDir) + [Own(Child(cacheDir, src))]
  }

  function PrintsOf(ts: seq<Tree>, src: string, dst: string, cacheDir: string): (ps: seq<Print>)
    ensures |ps| == AllocsOf(ts)
    decreases ts, 1
  {
    if ts == [] then []
    else
      var s, d := Child(src, ts[0].name), Child(dst, ts[0].name);
      [Own(s), Own(d)] + Prints(ts[0], s, d, cacheDir) + PrintsOf(ts[1..], src, dst, cacheDir)
  }

  function Texts(ps: seq<Print>): seq<string> { seq(|ps|, i requires 0 <= i < |ps| => ps[i].text) }

  /** The number of ring allocations of the recursive call. */
  function Allocs(t: Tree): nat {
    match t
    case Leaf(_, freed) => if freed.Some? then 2 else 1
    case Node(_, children) => AllocsOf(children) + 1
  }

  function AllocsOf(ts: seq<Tree>): nat {
    if ts == [] then 0 else 2 + Allocs(ts[0]) + AllocsOf(ts[1..])
  }

  // ---- the paths that are printed ----

  /** An absolute path without an empty component. */
  predicate PathLike(s: string) {
    && s != [] && s[0] == '/' && s[|s| - 1] != '/'
    && forall i :: 0 < i < |s| ==> !(s[i - 1] == '/' && s[i] == '/')
  }

  /** Neither path is inside the other. */
  predicate Apart(src: string, dst: string) { !(src + "/" <= dst) && !(dst + "/" <= src) && src != dst }

  /** Every path below `src` and `dst` is well formed, and every text fits into a slot. */
  ghost predicate Printable(t: Tree, src: string, dst: string, cacheDir: string)
    decreases t
  {
    && PathLike(src) && PathLike(dst)
    && |src| < TMPSTR_MAX && |dst| < TMPSTR_MAX && |Child(cacheDir, src)| < TMPSTR_MAX
    && (t.Leaf? && t.freed.Some? ==> |t.freed.value| < TMPSTR_MAX)
    && (t.Node? ==> forall c :: c in t.children ==>
          Printable(c, Child(src, c.name), Child(dst, c.name), cacheDir))
  }

  lemma ApartBelow(src: string, dst: string, name: string)
    requires Apart(src, dst)
    ensures Apart(Child(src, name), Child(dst, name))
  {
    PrefixOfChild(src, dst, name);
    PrefixOfChild(dst, src, name);
    assert Child(src, name)[..|src|] == src && Child(dst, name)[..|dst|] == dst;
  }

  lemma PrefixOfChild(src: string, dst: string, name: string)
    requires !(src + "/" <= dst)
    ensures !(Child(src, name) + "/" <= Child(dst, name))
  {
    assert (Child(src, name) + "/")[..|src| + 1] == src + "/";
    assert Child(dst, name)[..|dst|] == dst;
    if |src| + 1 <= |dst| {
      assert dst[..|src| + 1] == Child(dst, name)[..|src| + 1];
    }
  }

  /** `s` is `src` or below it. */
  predicate Inside(src: string, s: string) { s == src || src + "/" <= s }

  lemma InsideChild(src: string, s: string, name: string)
    requires Inside(src, s)
    ensures src + "/" <= Child(s, name) && Inside(src, Child(s, name))
  {
    if s != src {
      assert Child(s, name)[..|src| + 1] == s[..|src| + 1];
    }
  }

  /** A path in the cache directory has an empty component, so it is no path of the file system. */
  lemma CachePathDiffers(cacheDir: string, s: string, p: string)
    requires PathLike(s) && PathLike(p)
    ensures Child(cacheDir, s) != p
  {
    var text := Child(cacheDir, s);
    assert text[|cacheDir| + 1 - 1] == '/' && text[|cacheDir| + 1] == '/';
  }

  /** A text that overwrites: short, and neither of the two paths that a caller has in the ring. */
  predicate Clobbers(x: Print, src: string, dst: string) {
    |x.text| < TMPSTR_MAX && (x.Own? ==> x.text != src && x.text != dst)
  }

  /** No two texts in a row come from freed entries. */
  ghost predicate Alternates(ps: seq<Print>) {
    && (ps != [] ==> ps[0].Own?)
    && forall i :: 0 < i < |ps| ==> ps[i - 1].Own? || ps[i].Own?
  }

  lemma {:induction false} PrintsClobber(t: Tree, src: string, dst: string, s: string, d: string, cacheDir: string)
    requires Apart(src, dst) && PathLike(src) && PathLike(dst)
    requires Inside(src, s) && Inside(dst, d) && Printable(t, s, d, cacheDir)
    ensures forall x :: x in Prints(t, s, d, cacheDir) ==> Clobbers(x, src, dst)
    ensures Alternates(Prints(t, s, d, cacheDir))
    decreases t, 0
  {
    CachePathDiffers(cacheDir, s, src);
    CachePathDiffers(cacheDir, s, dst);
    if t.Node? {
      PrintsOfClobber(t.children, src, dst, s, d, cacheDir);
    }
  }

  lemma {:induction false} PrintsOfClobber(ts: seq<Tree>, src: string, dst: string, s: string, d: string,
                                           cacheDir: string)
    requires Apart(src, dst) && PathLike(src) && PathLike(dst)
    requires Inside(src, s) && Inside(dst, d)
    requires forall c :: c in ts ==> Printable(c, Child(s, c.name), Child(d, c.name), cacheDir)
    ensures forall x :: x in PrintsOf(ts, s, d, cacheDir) ==> Clobbers(x, src, dst)
    ensures Alternates(PrintsOf(ts, s, d, cacheDir))
    decreases ts, 1
  {
    if ts != [] {
      var s', d' := Child(s, ts[0].name), Child(d, ts[0].name);
      InsideChild(src, s, ts[0].name);
      InsideChild(dst, d, ts[0].name);
      assert Printable(ts[0], s', d', cacheDir);
      PrintsClobber(ts[0], src, dst, s', d', cacheDir);
      PrintsOfClobber(ts[1..], src, dst, s, d, cacheDir);
    }
  }

  // ---- how long the two paths live ----

  /** `src` and `dst` are printed, then `texts`, and the first two are still there. */
  predicate Intact(r: Ring, src: string, dst: string, texts: seq<string>)
    requires Valid(r)
  {
    var r1 := Printf(r, src);
    var r2 := Printf(r1, dst);
    && PrintfAll(r2, texts).slots[r1.current] == Cut(src)
    && PrintfAll(r2, texts).slots[r2.current] == Cut(dst)
  }

  /** The slot of a text, `k` calls after the next text was printed. */
  lemma Behind(r: Ring, src: string, dst: string, texts: seq<string>)
    requires Valid(r)
    ensures var r1 := Printf(r, src);
            var r2 := Printf(r1, dst);
            && PrintfAll(r2, texts).slots[r1.current] ==
               (if |texts| < 31 then Cut(src) else Cut(([dst] + texts)[LastBack(|texts| + 1)]))
            && PrintfAll(r2, texts).slots[r2.current] ==
               (if |texts| < 32 then Cut(dst) else Cut(texts[LastBack(|texts|)]))
  {
    var r1 := Printf(r, src);
    var r2 := Printf(r1, dst);
    Lifetime(r2, texts);
    Lifetime(r1, [dst] + texts);
    assert ([dst] + texts)[1..] == texts;
  }

  /** Both slots hold their paths at every moment of a call that prints `texts`. */
  ghost predicate Survive(r: Ring, src: string, dst: string, texts: seq<string>)
    requires Valid(r)
  {
    forall k :: 0 <= k <= |texts| ==> Intact(r, src, dst, texts[..k])
  }

  /** `src_entry` and `dst_entry` survive the recursive call on `t`, wherever in the ring they are. */
  ghost predicate PathsIntact(t: Tree, src: string, dst: string, cacheDir: string) {
    forall r: Ring :: Valid(r) ==> Survive(r, src, dst, Texts(Prints(t, src, dst, cacheDir)))
  }

  /** The 31st text lands on `src`; if it is a stale copy of it, the 32nd lands on `dst`. */
  lemma Overwritten(r: Ring, t: Tree, src: string, dst: string, cacheDir: string)
    requires Valid(r) && t.Node? && Apart(src, dst) && Printable(t, src, dst, cacheDir) && 30 < Allocs(t)
    ensures !Survive(r, src, dst, Texts(Prints(t, src, dst, cacheDir)))
  {
    var ps := Prints(t, src, dst, cacheDir);
    var texts := Texts(ps);
    PrintsClobber(t, src, dst, src, dst, cacheDir);
    assert ps[|ps| - 1].Own?;
    if ps[30].Own? {
      Behind(r, src, dst, texts[..31]);
      assert ps[30] in ps && ([dst] + texts[..31])[31] == ps[30].text;
      assert !Intact(r, src, dst, texts[..31]);
    } else {
      Behind(r, src, dst, texts[..32]);
      assert ps[31] in ps && ps[31].Own? && texts[..32][31] == ps[31].text;
      assert !Intact(r, src, dst, texts[..32]);
    }
  }

  /** The arguments of the recursive call on a directory survive it exactly when it prints at most 30 texts. */
  lemma PathsIntactIff(t: Tree, src: string, dst: string, cacheDir: string)
    requires t.Node? && Apart(src, dst) && Printable(t, src, dst, cacheDir)
    ensures PathsIntact(t, src, dst, cacheDir) <==> Allocs(t) <= 30
  {
    var texts := Texts(Prints(t, src, dst, cacheDir));
    if Allocs(t) <= 30 {
      forall r: Ring, k | Valid(r) && 0 <= k <= |texts|
        ensures Intact(r, src, dst, texts[..k])
      {
        Behind(r, src, dst, texts[..k]);
      }
    } else {
      var r := Ring(seq(TMPSTR_NB, _ => ""), 0);
      Overwritten(r, t, src, dst, cacheDir);
    }
  }

  /** Every recursive call inside the rename of `t` keeps its arguments. */
  ghost predicate AllIntact(t: Tree, src: string, dst: string, cacheDir: string)
    decreases t
  {
    t.Node? ==> forall c :: c in t.children && c.Node? ==>
      && PathsIntact(c, Child(src, c.name), Child(dst, c.name), cacheDir)
      && AllIntact(c, Child(src, c.name), Child(dst, c.name), cacheDir)
  }

  lemma {:induction false} MemberAllocs(ts: seq<Tree>, c: Tree)
    requires c in ts
    ensures Allocs(c) < AllocsOf(ts)
  {
    if c != ts[0] {
      assert c in ts[1..];
      MemberAllocs(ts[1..], c);
    }
  }

  lemma {:induction false} SmallTreesIntact(t: Tree, src: string, dst: string, cacheDir: string)
    requires Apart(src, dst) && Printable(t, src, dst, cacheDir) && Allocs(t) <= 30
    ensures AllIntact(t, src, dst, cacheDir)
    decreases t
  {
    if t.Node? {
      forall c | c in t.children && c.Node?
        ensures PathsIntact(c, Child(src, c.name), Child(dst, c.name), cacheDir)
        ensures AllIntact(c, Child(src, c.name), Child(dst, c.name), cacheDir)
      {
        MemberAllocs(t.children, c);
        ApartBelow(src, dst, c.name);
        PathsIntactIff(c, Child(src, c.name), Child(dst, c.name), cacheDir);
        SmallTreesIntact(c, Child(src, c.name), Child(dst, c.name), cacheDir);
      }
    }
  }

  /**
   Paths may be read as values throughout the rename of a directory exactly when each of its
   subdirectories prints at most 30 texts.
   */
  lemma ValueViewIff(t: Tree, src: string, dst: string, cacheDir: string)
    requires t.Node? && Apart(src, dst) && Printable(t, src, dst, cacheDir)
    ensures AllIntact(t, src, dst, cacheDir) <==> forall c :: c in t.children && c.Node? ==> Allocs(c) <= 30
  {
    forall c | c in t.children && c.Node?
      ensures PathsIntact(c, Child(src, c.name), Child(dst, c.name), cacheDir) <==> Allocs(c) <= 30
      ensures Allocs(c) <= 30 ==> AllIntact(c, Child(src, c.name), Child(dst, c.name), cacheDir)
    {
      ApartBelow(src, dst, c.name);
      PathsIntactIff(c, Child(src, c.name), Child(dst, c.name), cacheDir);
      if Allocs(c) <= 30 {
        SmallTreesIntact(c, Child(src, c.name), Child(dst, c.name), cacheDir);
      }
    }
  }

  /** Plain files, all of them with entries in the path table or none. */
  predicate Flat(ts: seq<Tree>, cached: bool) {
    forall c :: c in ts ==> c.Leaf? && (c.freed.Some? <==> cached)
  }

  lemma {:induction false} FlatAllocs(ts: seq<Tree>, cached: bool)
    requires Flat(ts, cached)
    ensures AllocsOf(ts) == |ts| * if cached then 4 else 3
  {
    if ts != [] {
      assert ts[0] in ts;
      FlatAllocs(ts[1..], cached);
    }
  }

  /** So a subdirectory of plain files is renamed soundly up to 9 files, or 7 when they are cached. */
  lemma FlatDirectoryBound(t: Tree, src: string, dst: string, cacheDir: string, cached: bool)
    requires t.Node? && Flat(t.children, cached) && Apart(src, dst) && Printable(t, src, dst, cacheDir)
    ensures PathsIntact(t, src, dst, cacheDir) <==> |t.children| <= if cached then 7 else 9
  {
    FlatAllocs(t.children, cached);
    PathsIntactIff(t, src, dst, cacheDir);
  }

  /** Ten files named "0" to "9" in a directory "d". */
  const TEN_FILES: Tree := Node("d", seq(10, i requires 0 <= i < 10 => Leaf([(i + 48) as char], None)))

  /** Renaming "/a", which holds that directory, to "/b" overwrites the paths of the call on it. */
  lemma TenFilesOverwrite()
    ensures !PathsIntact(TEN_FILES, "/a/d", "/b/d", "/var/cache")
    ensures !AllIntact(Node("a", [TEN_FILES]), "/a", "/b", "/var/cache")
  {
    var src, dst := "/a/d", "/b/d";
    forall c | c in TEN_FILES.children
      ensures Printable(c, Child(src, c.name), Child(dst, c.name), "/var/cache")
    {
      assert |c.name| == 1 && c.name[0] != '/';
      assert Child(src, c.name) == src + "/" + c.name && Child(dst, c.name) == dst + "/" + c.name;
    }
    FlatDirectoryBound(TEN_FILES, src, dst, "/var/cache", false);
    assert Child("/a", "d") == src && Child("/b", "d") == dst;
    assert TEN_FILES in [TEN_FILES];
  }

  // ---- the buffers themselves ----

  /** The thread-local buffers of the source. */
  class Buffers {
    var strings: array<string>
    var current: nat

    ghost predicate Ok()
      reads this
    {
      strings.Length == TMPSTR_NB && current < TMPSTR_NB
    }

    ghost function Value(): Ring
      reads this, strings
    {
      Ring(strings[..], current)
    }

    constructor ()
      ensures Ok() && fresh(strings) && current == 0
    {
      strings := new string[TMPSTR_NB](_ => "");
      current := 0;
    }

    /** tmpstr_new */
    method New() returns (slot: nat)
      requires Ok()
      modifies this`current
      ensures Ok() && slot == current == (old(current) + 1) % TMPSTR_NB
    {
      current := current + 1;
      if current >= TMPSTR_NB {
        current := 0;
      }
      slot := current;
    }

    /** tmpstr_printf */
    method Format(text: string) returns (slot: nat)
      requires Ok()
      modifies this`current, strings
      ensures Ok() && slot == current && Value() == Printf(old(Value()), text)
      ensures strings[slot] == Cut(text)
    {
      slot := New();
      strings[slot] := Cut(text);
    }
  }
}
