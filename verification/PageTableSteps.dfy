/** The three ways vmm.c changes a page-table tree, and what each does to the translation. */
module PageTableSteps {
  import opened Base
  import opened PageTableModel

  function ZeroTable(): (t: Table)
    ensures forall i :: 0 <= i < ENTRIES ==> t[i] == ZeroEntry
  {
    seq(ENTRIES, _ => ZeroEntry)
  }

  ghost function SetEntry(s: Space, t: Frame, i: nat, e: Entry): (r: Space)
    requires t in s.tables && i < ENTRIES
  {
    s.(tables := s.tables[t := s.tables[t][i := e]])
  }

  /** A slot of an upper table together with the table itself. */
  ghost predicate UpperSlot(s: Space, t: Frame, i: nat) {
    t in s.tables && t in s.level && s.level[t] >= 2 && OwnSlot(s.level[t], i)
  }

  // ---------------------------------------------------------------- upgrading an existing entry

  lemma UpgradeTree(s: Space, t: Frame, i: nat, e: Entry)
    requires TreeOk(s, 1) && UpperSlot(s, t, i)
    requires IsPresent(s.tables[t][i]) && s.tables[t][i].flags <= e.flags && e.frame == s.tables[t][i].frame
    ensures TreeOk(SetEntry(s, t, i, e), 1)
  {
    var r := SetEntry(s, t, i, e);
    forall u, j: nat | u in r.tables && u in r.level && r.level[u] > 1 && OwnSlot(r.level[u], j)
      ensures ChildOk(r, u, j) {
      assert ChildOk(s, u, j);
    }
    forall c | c in r.parent ensures ParentOk(r, c) {
      assert ParentOk(s, c);
      var (u, j) := s.parent[c];
      assert r.tables[u][j] == if u == t && j == i then e else s.tables[u][j];
    }
  }

  lemma {:induction false} UpgradePath(s: Space, t: Frame, i: nat, e: Entry, n: nat, l: nat)
    requires t in s.tables && i < ENTRIES && 1 <= l <= 4
    requires IsPresent(s.tables[t][i]) && IsPresent(e) && e.frame == s.tables[t][i].frame
    ensures TableAt(SetEntry(s, t, i, e), n, l) == TableAt(s, n, l)
    decreases 4 - l
  {
    if l < 4 { UpgradePath(s, t, i, e, n, l + 1); }
  }

  lemma UpgradeTranslate(s: Space, t: Frame, i: nat, e: Entry, n: nat)
    requires TreeOk(s, 1) && UpperSlot(s, t, i) && n < USER_PAGES
    requires IsPresent(s.tables[t][i]) && IsPresent(e) && e.frame == s.tables[t][i].frame
    ensures Translate(SetEntry(s, t, i, e), n) == Translate(s, n)
  {
    UpgradePath(s, t, i, e, n, 1);
    TableAtLevel(s, n, 1);
  }

  // ---------------------------------------------------------------- adding an empty table

  ghost function AddTable(s: Space, t: Frame, i: nat, c: Frame, flags: set<Flag>): (r: Space)
    requires UpperSlot(s, t, i)
  {
    Space(s.tables[t := s.tables[t][i := Entry(c, flags)]][c := ZeroTable()], s.root,
          s.level[c := s.level[t] - 1], s.parent[c := (t, i)])
  }

  lemma AddTableTree(s: Space, t: Frame, i: nat, c: Frame, flags: set<Flag>)
    requires TreeOk(s, 1) && UpperSlot(s, t, i) && !IsPresent(s.tables[t][i])
    requires c != 0 && c !in s.level && {Present, Writable} <= flags
    ensures TreeOk(AddTable(s, t, i, c, flags), 1)
  {
    hide DownOk, UpOk, ZeroTable, ParentOk, ChildOk;
    var r := AddTable(s, t, i, c, flags);
    AddTableDown(s, t, i, c, flags);
    AddTableUp(s, t, i, c, flags);
    assert r.parent.Keys == s.parent.Keys + {c};
    assert r.level.Keys == s.level.Keys + {c};
  }

  lemma AddTableDown(s: Space, t: Frame, i: nat, c: Frame, flags: set<Flag>)
    requires TreeOk(s, 1) && UpperSlot(s, t, i) && !IsPresent(s.tables[t][i])
    requires c != 0 && c !in s.level && {Present, Writable} <= flags
    ensures DownOk(AddTable(s, t, i, c, flags), 1)
  {
  }

  lemma AddTableUp(s: Space, t: Frame, i: nat, c: Frame, flags: set<Flag>)
    requires TreeOk(s, 1) && UpperSlot(s, t, i) && !IsPresent(s.tables[t][i])
    requires c != 0 && c !in s.level && Present in flags
    ensures UpOk(AddTable(s, t, i, c, flags))
  {
    hide DownOk;
    var r := AddTable(s, t, i, c, flags);
    forall d | d in r.parent ensures ParentOk(r, d) {
      if d != c {
        assert ParentOk(s, d);
        var (u, j) := s.parent[d];
        assert r.tables[u][j] == if u == t && j == i then Entry(c, flags) else s.tables[u][j];
      }
    }
  }

  /** The walk of page m at level l passes through slot i of table t. */
  ghost predicate NewHere(s: Space, t: Frame, i: nat, m: nat, l: nat)
    requires 1 <= l <= 4
  {
    l < 4 && t in s.level && l + 1 == s.level[t] && TableAt(s, m, l + 1) == Some(t) && Idx(m, l + 1) == i
  }

  lemma {:induction false} AddTablePath(s: Space, t: Frame, i: nat, c: Frame, flags: set<Flag>, m: nat, l: nat)
    requires TreeOk(s, 1) && UpperSlot(s, t, i) && !IsPresent(s.tables[t][i]) && m < USER_PAGES && 1 <= l <= 4
    requires c != 0 && c !in s.level && Present in flags
    ensures TableAt(AddTable(s, t, i, c, flags), m, l) == if NewHere(s, t, i, m, l) then Some(c) else TableAt(s, m, l)
    decreases 4 - l
  {
    if l < 4 {
      AddTablePath(s, t, i, c, flags, m, l + 1);
      TableAtLevel(s, m, l + 1);
      hide DownOk, UpOk, TreeOk;
    }
  }

  lemma AddTableTranslate(s: Space, t: Frame, i: nat, c: Frame, flags: set<Flag>, n: nat)
    requires TreeOk(s, 1) && UpperSlot(s, t, i) && !IsPresent(s.tables[t][i]) && n < USER_PAGES
    requires c != 0 && c !in s.level && Present in flags
    ensures Translate(AddTable(s, t, i, c, flags), n) == Translate(s, n)
  {
    AddTablePath(s, t, i, c, flags, n, 1);
    TableAtLevel(s, n, 1);
  }

  // ---------------------------------------------------------------- writing a leaf

  ghost predicate LeafTable(s: Space, t: Frame) { t in s.tables && t in s.level && s.level[t] == 1 }

  lemma LeafTree(s: Space, t: Frame, i: nat, e: Entry)
    requires TreeOk(s, 1) && LeafTable(s, t) && i < ENTRIES
    ensures TreeOk(SetEntry(s, t, i, e), 1)
  {
  }

  lemma {:induction false} LeafPath(s: Space, t: Frame, i: nat, e: Entry, n: nat, l: nat)
    requires TreeOk(s, 1) && LeafTable(s, t) && i < ENTRIES && n < USER_PAGES && 1 <= l <= 4
    ensures TableAt(SetEntry(s, t, i, e), n, l) == TableAt(s, n, l)
    decreases 4 - l
  {
    if l < 4 {
      LeafPath(s, t, i, e, n, l + 1);
      TableAtLevel(s, n, l + 1);
    }
  }

  /** Writing the leaf of page n changes the translation of n and of no other page. */
  lemma LeafTranslate(s: Space, t: Frame, e: Entry, n: nat, m: nat)
    requires TreeOk(s, 1) && n < USER_PAGES && m < USER_PAGES && TableAt(s, n, 1) == Some(t) && LeafTable(s, t)
    ensures Translate(SetEntry(s, t, Idx(n, 1), e), m) ==
            if m == n then (if IsPresent(e) then Some(e) else None) else Translate(s, m)
  {
    LeafPath(s, t, Idx(n, 1), e, m, 1);
    LeafPath(s, t, Idx(n, 1), e, n, 1);
    TableAtLevel(s, m, 1);
    if m != n && TableAt(s, m, 1) == Some(t) && Idx(m, 1) == Idx(n, 1) {
      PathDetermined(s, n, m, 1, 2);
      PathDetermined(s, n, m, 1, 3);
      PathDetermined(s, n, m, 1, 4);
      IdxInjective(n, m);
    }
  }
}
