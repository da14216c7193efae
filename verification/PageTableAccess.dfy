/** Which pages a program reaches through the upper tables. The processor lets it through a table entry only when the
    entry is present and marked for user access, and lets it write only when the entry is writable too: section 4.6 of
    the Intel SDM, volume 3A. */
module PageTableAccess {
  import opened Base
  import opened PageTableModel
  import opened PageTableSteps

  const PASS: set<Flag> := {Present, Writable, User}

  /** The entries on the path of page n above level l let a program through, reading or writing. */
  ghost predicate Grants(s: Space, n: nat, l: nat)
    requires 1 <= l <= 4
    decreases 4 - l
  {
    l < 4 ==>
      && Grants(s, n, l + 1) && TableAt(s, n, l + 1).Some? && TableAt(s, n, l + 1).value in s.tables
      && PASS <= s.tables[TableAt(s, n, l + 1).value][Idx(n, l + 1)].flags
  }

  /** A page marked for the program is one it reaches. */
  ghost predicate Granted(s: Space) {
    forall n :: 0 <= n < USER_PAGES && Translate(s, n).Some? && User in Translate(s, n).value.flags ==> Grants(s, n, 1)
  }

  /** What lets a program through in s does so in r. */
  ghost predicate Widened(r: Space, s: Space) {
    forall m, k :: 0 <= m < USER_PAGES && 1 <= k <= 4 && Grants(s, m, k) ==> Grants(r, m, k)
  }

  lemma GrantedKept(r: Space, s: Space)
    requires Granted(s) && Widened(r, s)
    requires forall n :: 0 <= n < USER_PAGES ==> Translate(r, n) == Translate(s, n)
    ensures Granted(r)
  {
    hide Translate, Grants;
  }

  lemma {:induction false} UpgradeGrants(s: Space, t: Frame, i: nat, e: Entry, n: nat, l: nat)
    requires t in s.tables && i < ENTRIES && 1 <= l <= 4 && Grants(s, n, l)
    requires IsPresent(s.tables[t][i]) && s.tables[t][i].flags <= e.flags && e.frame == s.tables[t][i].frame
    ensures Grants(SetEntry(s, t, i, e), n, l)
    decreases 4 - l
  {
    if l < 4 {
      UpgradeGrants(s, t, i, e, n, l + 1);
      UpgradePath(s, t, i, e, n, l + 1);
    }
  }

  lemma UpgradeWidens(s: Space, t: Frame, i: nat, e: Entry)
    requires t in s.tables && i < ENTRIES
    requires IsPresent(s.tables[t][i]) && s.tables[t][i].flags <= e.flags && e.frame == s.tables[t][i].frame
    ensures Widened(SetEntry(s, t, i, e), s)
  {
    hide Grants;
    forall m, k | 0 <= m < USER_PAGES && 1 <= k <= 4 && Grants(s, m, k) ensures Grants(SetEntry(s, t, i, e), m, k) {
      UpgradeGrants(s, t, i, e, m, k);
    }
  }

  lemma {:induction false} AddTableGrants(s: Space, t: Frame, i: nat, c: Frame, flags: set<Flag>, n: nat, l: nat)
    requires TreeOk(s, 1) && UpperSlot(s, t, i) && !IsPresent(s.tables[t][i]) && n < USER_PAGES && 1 <= l <= 4
    requires c != 0 && c !in s.level && Present in flags && Grants(s, n, l)
    ensures Grants(AddTable(s, t, i, c, flags), n, l)
    decreases 4 - l
  {
    if l < 4 {
      AddTableGrants(s, t, i, c, flags, n, l + 1);
      AddTablePath(s, t, i, c, flags, n, l + 1);
      TableAtLevel(s, n, l + 1);
      hide TreeOk;
    }
  }

  lemma AddTableWidens(s: Space, t: Frame, i: nat, c: Frame, flags: set<Flag>)
    requires TreeOk(s, 1) && UpperSlot(s, t, i) && !IsPresent(s.tables[t][i])
    requires c != 0 && c !in s.level && Present in flags
    ensures Widened(AddTable(s, t, i, c, flags), s)
  {
    hide Grants, TreeOk;
    forall m, k | 0 <= m < USER_PAGES && 1 <= k <= 4 && Grants(s, m, k)
      ensures Grants(AddTable(s, t, i, c, flags), m, k)
    {
      AddTableGrants(s, t, i, c, flags, m, k);
    }
  }

  lemma {:induction false} LeafGrants(s: Space, t: Frame, i: nat, e: Entry, n: nat, l: nat)
    requires TreeOk(s, 1) && LeafTable(s, t) && i < ENTRIES && n < USER_PAGES && 1 <= l <= 4
    ensures Grants(SetEntry(s, t, i, e), n, l) == Grants(s, n, l)
    decreases 4 - l
  {
    if l < 4 {
      LeafGrants(s, t, i, e, n, l + 1);
      LeafPath(s, t, i, e, n, l + 1);
      TableAtLevel(s, n, l + 1);
      hide TreeOk;
    }
  }

  /** Writing the leaf of page n, when the path lets the program reach what the new entry offers it. */
  lemma LeafGranted(s: Space, t: Frame, e: Entry, n: nat)
    requires TreeOk(s, 1) && n < USER_PAGES && TableAt(s, n, 1) == Some(t) && LeafTable(s, t) && Granted(s)
    requires User in e.flags ==> Grants(s, n, 1)
    ensures Granted(SetEntry(s, t, Idx(n, 1), e))
  {
    hide TreeOk, Translate, Grants, TableAt;
    var r := SetEntry(s, t, Idx(n, 1), e);
    forall m | 0 <= m < USER_PAGES && Translate(r, m).Some? && User in Translate(r, m).value.flags
      ensures Grants(r, m, 1)
    {
      LeafTranslate(s, t, e, n, m);
      LeafGrants(s, t, Idx(n, 1), e, m, 1);
    }
  }

  /** One step down a path that lets the program through. */
  lemma StepGrants(s: Space, n: nat, l: nat, t: Frame)
    requires 2 <= l <= 4 && Grants(s, n, l) && TableAt(s, n, l) == Some(t) && t in s.tables
    requires PASS <= s.tables[t][Idx(n, l)].flags
    ensures Grants(s, n, l - 1)
  {
  }

  lemma RootGrants(s: Space, n: nat)
    ensures Grants(s, n, 4)
  {
  }

  /** With nothing mapped there is nothing to reach. */
  lemma NoneGranted(s: Space)
    requires forall n :: 0 <= n < USER_PAGES ==> Translate(s, n).None?
    ensures Granted(s)
  {
    hide Translate, Grants;
  }
}
