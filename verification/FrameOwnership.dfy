/** Which frames an address space owns, and which of them lie below a given table. */
module FrameOwnership {
  import opened Base
  import opened PageTableModel

  /** `leaf` maps each user frame to the one page that is mapped to it. */
  ghost predicate LeafOk(s: Space, leaf: map<Frame, nat>) {
    && 0 !in leaf
    && (forall n :: 0 <= n < USER_PAGES && Translate(s, n).Some? ==>
          Translate(s, n).value.frame in leaf && leaf[Translate(s, n).value.frame] == n)
    && (forall f :: f in leaf ==>
       leaf[f] < USER_PAGES && Translate(s, leaf[f]).Some? && Translate(s, leaf[f]).value.frame == f)
  }

  /** The frame that page n shows, if any. */
  ghost function Shown(s: Space, n: nat): (r: set<Frame>) {
    var e := Translate(s, n);
    if e.Some? then {e.value.frame} else {}
  }

  /** The user frames once page n shows frame f. */
  ghost function Remapped(leaf: map<Frame, nat>, s: Space, n: nat, f: Frame): (r: map<Frame, nat>) {
    (leaf - Shown(s, n))[f := n]
  }

  /** A page mapped to a new frame; the frame it showed before, if any, is no longer mapped anywhere. */
  lemma LeafOkMap(s: Space, r: Space, leaf: map<Frame, nat>, n: nat, e: Entry)
    requires LeafOk(s, leaf) && n < USER_PAGES && e.frame != 0 && e.frame !in leaf
    requires forall m :: 0 <= m < USER_PAGES ==> Translate(r, m) == if m == n then Some(e) else Translate(s, m)
    ensures LeafOk(r, Remapped(leaf, s, n, e.frame))
  {
    hide Translate;
  }

  lemma LeafOkUnmap(s: Space, r: Space, leaf: map<Frame, nat>, n: nat, f: Frame)
    requires LeafOk(s, leaf) && n < USER_PAGES && f in leaf && leaf[f] == n
    requires forall m :: 0 <= m < USER_PAGES ==> Translate(r, m) == if m == n then None else Translate(s, m)
    ensures LeafOk(r, leaf - {f})
  {
  }

  lemma LeafOkSame(s: Space, r: Space, leaf: map<Frame, nat>)
    requires LeafOk(s, leaf) && forall m :: 0 <= m < USER_PAGES ==> Translate(r, m) == Translate(s, m)
    ensures LeafOk(r, leaf)
  {
  }

  // ---------------------------------------------------------------- the tree with its user frames

  /** The page number with the given four indices. */
  lemma Compose(a: nat, b: nat, c: nat, d: nat) returns (n: nat)
    requires a < USER_SLOTS && b < ENTRIES && c < ENTRIES && d < ENTRIES
    ensures n < USER_PAGES && Idx(n, 4) == a && Idx(n, 3) == b && Idx(n, 2) == c && Idx(n, 1) == d
  {
    n := ((a * 512 + b) * 512 + c) * 512 + d;
    assert n / 512 == (a * 512 + b) * 512 + c;
    DivTwice(n);
    assert n / 512 / 512 == a * 512 + b;
    DivTwice(n / 512);
    assert n / 134217728 == a;
  }

  /** The root is the only frame at level 4. */
  lemma OnlyRoot(s: Space, lo: nat, t: Frame)
    requires TreeOk(s, lo) && t in s.level && s.level[t] == 4
    ensures t == s.root
  {
    assert t in s.parent ==> ParentOk(s, t);
  }

  /** Every slot of every leaf table is the last step of some page's walk. */
  lemma SlotHasPage(s: Space, t: Frame, i: nat) returns (n: nat)
    requires TreeOk(s, 1) && t in s.level && s.level[t] == 1 && i < ENTRIES
    ensures n < USER_PAGES && TableAt(s, n, 1) == Some(t) && Idx(n, 1) == i
  {
    assert ParentOk(s, t);
    var (t2, j2) := s.parent[t];
    assert ParentOk(s, t2);
    var (t3, j3) := s.parent[t2];
    assert ParentOk(s, t3);
    var (t4, j4) := s.parent[t3];
    OnlyRoot(s, 1, t4);
    n := Compose(j4, j3, j2, i);
    assert TableAt(s, n, 4) == Some(t4);
    assert TableAt(s, n, 3) == Some(t3);
    assert TableAt(s, n, 2) == Some(t2);
  }

  /** The tree of tables extended by its user frames at level 0. */
  ghost function Full(s: Space, leaf: map<Frame, nat>): (r: Space)
    requires forall f :: f in leaf ==> TableAt(s, leaf[f], 1).Some?
  {
    s.(level := s.level + (map f | f in leaf :: 0),
       parent := s.parent + (map f | f in leaf :: (TableAt(s, leaf[f], 1).value, Idx(leaf[f], 1))))
  }

  lemma LeavesHaveTables(s: Space, leaf: map<Frame, nat>)
    requires LeafOk(s, leaf)
    ensures 0 !in leaf && forall f :: f in leaf ==> TableAt(s, leaf[f], 1).Some?
  {
  }

  lemma FullTree(s: Space, leaf: map<Frame, nat>)
    requires TreeOk(s, 1) && LeafOk(s, leaf) && leaf.Keys !! s.level.Keys
    ensures forall f :: f in leaf ==> TableAt(s, leaf[f], 1).Some?
    ensures TreeOk(Full(s, leaf), 0) && Full(s, leaf).level.Keys == s.level.Keys + leaf.Keys
  {
    hide DownOk, UpOk, LeafOk, TableAt, Full;
    LeavesHaveTables(s, leaf);
    FullKeys(s, leaf);
    FullDown(s, leaf);
    FullUp(s, leaf);
  }

  lemma FullKeys(s: Space, leaf: map<Frame, nat>)
    requires TreeOk(s, 1) && leaf.Keys !! s.level.Keys && 0 !in leaf
    requires forall f :: f in leaf ==> TableAt(s, leaf[f], 1).Some?
    ensures var r := Full(s, leaf);
            && r.tables == s.tables && r.root == s.root
            && r.level.Keys == s.level.Keys + leaf.Keys
            && r.parent.Keys == r.level.Keys - {r.root}
            && (forall t :: t in r.level ==> r.level[t] == if t in leaf then 0 else s.level[t])
  {
  }

  lemma FullDown(s: Space, leaf: map<Frame, nat>)
    requires TreeOk(s, 1) && LeafOk(s, leaf) && leaf.Keys !! s.level.Keys
    requires forall f :: f in leaf ==> TableAt(s, leaf[f], 1).Some?
    ensures DownOk(Full(s, leaf), 0)
  {
    hide UpOk;
    var r := Full(s, leaf);
    forall t, i: nat | t in r.tables && t in r.level && r.level[t] > 0 && OwnSlot(r.level[t], i)
      ensures ChildOk(r, t, i) {
      if s.level[t] > 1 {
        assert ChildOk(s, t, i);
      } else if Used(s.tables[t][i]) {
        var n := SlotHasPage(s, t, i);
        assert Translate(s, n) == Some(s.tables[t][i]);
      }
    }
  }

  lemma FullUp(s: Space, leaf: map<Frame, nat>)
    requires TreeOk(s, 1) && LeafOk(s, leaf) && leaf.Keys !! s.level.Keys
    requires forall f :: f in leaf ==> TableAt(s, leaf[f], 1).Some?
    ensures UpOk(Full(s, leaf))
  {
    hide DownOk;
    var r := Full(s, leaf);
    forall c | c in r.parent ensures ParentOk(r, c) {
      if c in leaf {
        TableAtLevel(s, leaf[c], 1);
      } else {
        assert ParentOk(s, c);
      }
    }
  }

  // ---------------------------------------------------------------- frames below a table

  /** The ancestor of x at level l (x itself if it is at that level). */
  ghost function Anc(s: Space, x: Frame, l: nat): (a: Frame)
    requires TreeOk(s, 0) && x in s.level && s.level[x] <= l <= 4
    ensures a in s.level && s.level[a] == l
    decreases l - s.level[x]
  {
    if s.level[x] == l then x
    else
      assert ParentOk(s, x);
      Anc(s, s.parent[x].0, l)
  }

  /** Everything that destroying the contents of table f must give back. */
  ghost function Under(s: Space, f: Frame): (r: set<Frame>)
    requires TreeOk(s, 0) && f in s.level
  {
    set x | x in s.level && s.level[x] < s.level[f] && Anc(s, x, s.level[f]) == f
  }

  /** The slot of f through which x is reached. */
  ghost function SlotOf(s: Space, f: Frame, x: Frame): (i: nat)
    requires TreeOk(s, 0) && f in s.level && x in Under(s, f)
  {
    var a := Anc(s, x, s.level[f] - 1);
    assert ParentOk(s, a);
    s.parent[a].1
  }

  ghost function UnderUpTo(s: Space, f: Frame, n: nat): (r: set<Frame>)
    requires TreeOk(s, 0) && f in s.level
  {
    set x | x in Under(s, f) && SlotOf(s, f, x) < n
  }

  lemma {:induction false} AncStep(s: Space, x: Frame, l: nat)
    requires TreeOk(s, 0) && x in s.level && s.level[x] <= l < 4
    ensures Anc(s, x, l) in s.parent && Anc(s, x, l + 1) == s.parent[Anc(s, x, l)].0
    decreases l - s.level[x]
  {
    if x != s.root { assert ParentOk(s, x); }
    if s.level[x] < l { AncStep(s, s.parent[x].0, l); }
  }

  /** x is reached through slot n of f exactly when its ancestor just below f is the child in that slot. */
  lemma SlotIsChild(s: Space, f: Frame, n: nat, x: Frame)
    requires TreeOk(s, 0) && f in s.tables && OwnSlot(s.level[f], n) && x in Under(s, f)
    ensures var e := s.tables[f][n]; SlotOf(s, f, x) == n <==> Used(e) && Anc(s, x, s.level[f] - 1) == e.frame
  {
    var a := Anc(s, x, s.level[f] - 1);
    AncStep(s, x, s.level[f] - 1);
    assert ParentOk(s, a) && ChildOk(s, f, n);
  }

  /** The child in slot n and everything below it is below f. */
  lemma ChildUnder(s: Space, f: Frame, n: nat, x: Frame)
    requires TreeOk(s, 0) && f in s.tables && OwnSlot(s.level[f], n) && Used(s.tables[f][n])
    ensures var c := s.tables[f][n].frame;
            && c in s.level && s.level[c] + 1 == s.level[f]
            && (x in Under(s, c) || x == c <==> x in Under(s, f) && Anc(s, x, s.level[f] - 1) == c)
  {
    assert ChildOk(s, f, n);
    var c := s.tables[f][n].frame;
    if x in s.level && s.level[x] <= s.level[c] { AncStep(s, x, s.level[c]); }
  }

  /** What lies below slot n of f: nothing, or the child and what lies below the child. */
  lemma UnderSlot(s: Space, f: Frame, n: nat)
    requires TreeOk(s, 0) && f in s.tables && OwnSlot(s.level[f], n)
    ensures var e := s.tables[f][n];
            if Used(e) then e.frame in s.level && s.level[e.frame] + 1 == s.level[f]
                            && UnderUpTo(s, f, n + 1) == UnderUpTo(s, f, n) + {e.frame} + Under(s, e.frame)
                            && UnderUpTo(s, f, n) !! ({e.frame} + Under(s, e.frame))
            else UnderUpTo(s, f, n + 1) == UnderUpTo(s, f, n)
  {
    var e := s.tables[f][n];
    if Used(e) { ChildUnder(s, f, n, e.frame); }
    hide TreeOk, Under, Anc, SlotOf;
    forall x ensures x in UnderUpTo(s, f, n + 1) <==>
                     x in UnderUpTo(s, f, n) || (Used(e) && (x == e.frame || x in Under(s, e.frame)))
             ensures x in UnderUpTo(s, f, n) ==> !(Used(e) && (x == e.frame || x in Under(s, e.frame)))
    {
      if Used(e) { ChildUnder(s, f, n, x); }
      if x in Under(s, f) { SlotIsChild(s, f, n, x); }
    }
  }

  /** Levels keep a table apart from what lies below it. */
  lemma UnderChild(s: Space, f: Frame, n: nat)
    requires TreeOk(s, 0) && f in s.tables && OwnSlot(s.level[f], n) && Used(s.tables[f][n])
    ensures var c := s.tables[f][n].frame;
            && c in s.level && c !in Under(s, c) && c in Under(s, f) && f !in Under(s, c) && f !in Under(s, f)
            && Under(s, c) <= Under(s, f)
  {
    var c := s.tables[f][n].frame;
    ChildUnder(s, f, n, c);
    forall x | x in Under(s, c) ensures x in Under(s, f) { ChildUnder(s, f, n, x); }
  }

  /** The last slot is reached when all own slots are done. */
  lemma UnderAll(s: Space, f: Frame)
    requires TreeOk(s, 0) && f in s.tables
    ensures UnderUpTo(s, f, if s.level[f] == 4 then USER_SLOTS else ENTRIES) == Under(s, f)
    ensures UnderUpTo(s, f, 0) == {}
  {
    forall x | x in Under(s, f) ensures SlotOf(s, f, x) < (if s.level[f] == 4 then USER_SLOTS else ENTRIES) {
      AncStep(s, x, s.level[f] - 1);
      assert ParentOk(s, Anc(s, x, s.level[f] - 1));
    }
  }

  /** Below the root lies everything but the root. */
  lemma UnderRoot(s: Space)
    requires TreeOk(s, 0)
    ensures Under(s, s.root) == s.level.Keys - {s.root}
  {
    forall x | x in s.level && x != s.root ensures x in Under(s, s.root) {
      assert ParentOk(s, x);
      OnlyRoot(s, 0, Anc(s, x, 4));
    }
  }
}
