/** Four-level page tables in physical frames, as values: the tree invariant and the translation it encodes.
    The layout is that of 4-level paging, section 4.5 of the Intel SDM, volume 3A. */
module PageTableModel {
  import opened Base

  const ENTRIES := 512
  const USER_SLOTS := 256           // PML4 slots of the user half
  const USER_PAGES := 34359738368   // 256 * 512 * 512 * 512

  type Frame = nat                  // a physical address divided by the page size
  datatype Flag = Present | Writable | User | WriteThrough | CacheDisable | Bit(n: nat)
  datatype Entry = Entry(frame: Frame, flags: set<Flag>)
  const ZeroEntry := Entry(0, {})

  type Table = t: seq<Entry> | |t| == ENTRIES witness seq(ENTRIES, _ => Entry(0, {}))

  /** `level` is 4 for the PML4 down to 1 for a page table, and 0 for a user frame; `parent` gives the
      table and slot that hold a frame. Both describe the frames this address space owns. */
  datatype Space = Space(tables: map<Frame, Table>, root: Frame, level: map<Frame, nat>,
                         parent: map<Frame, (Frame, nat)>)

  /** PML4_INDEX, PDPT_INDEX, PD_INDEX and PT_INDEX of page number n. */
  function Idx(n: nat, l: nat): (i: nat)
    requires 1 <= l <= 4
    ensures i < ENTRIES
  {
    if l == 4 then (n / 134217728) % 512
    else if l == 3 then (n / 262144) % 512
    else if l == 2 then (n / 512) % 512
    else n % 512
  }

  /** The page number of a virtual address, as PAGE_ALIGN_DOWN leaves it. */
  function PageOf(virt: nat): (n: nat) { virt / 4096 }

  /** Dividing by 512 twice is dividing by 512 * 512. */
  lemma DivTwice(n: nat)
    ensures n / 512 / 512 == n / 262144
  {
  }

  /** A user page number is its four indices written in base 512, and stays in the user half. */
  lemma Digits(n: nat)
    requires n < USER_PAGES
    ensures Idx(n, 4) < USER_SLOTS
    ensures n == ((Idx(n, 4) * 512 + Idx(n, 3)) * 512 + Idx(n, 2)) * 512 + Idx(n, 1)
  {
    DivTwice(n);
    DivTwice(n / 512);
    var a := n / 512;
    var b := a / 512;
    var c := b / 512;
    assert c == n / 134217728;
    assert n == a * 512 + n % 512 && a == b * 512 + a % 512 && b == c * 512 + b % 512;
  }

  /** Different user pages differ in some index. */
  lemma IdxInjective(n: nat, m: nat)
    requires n < USER_PAGES && m < USER_PAGES
    requires Idx(n, 4) == Idx(m, 4) && Idx(n, 3) == Idx(m, 3) && Idx(n, 2) == Idx(m, 2) && Idx(n, 1) == Idx(m, 1)
    ensures n == m
  {
    Digits(n);
    Digits(m);
  }

  // ---------------------------------------------------------------- the tree

  /** Slots of a table that belong to this address space: the kernel half of the PML4 does not. */
  predicate OwnSlot(l: nat, i: nat) { i < ENTRIES && (l == 4 ==> i < USER_SLOTS) }

  predicate IsPresent(e: Entry) { Present in e.flags }

  /** An entry that holds a frame of its own. */
  predicate Used(e: Entry) { IsPresent(e) && e.frame != 0 }

  /** Every entry above level `lo` points to a frame one level down that points back to it, and every owned
      frame but the root is pointed to. With lo == 1 this covers the tables, with lo == 0 the user frames too. */
  ghost predicate TreeOk(s: Space, lo: nat) {
    && s.root in s.level && s.level[s.root] == 4 && 0 !in s.level
    && s.parent.Keys == s.level.Keys - {s.root}
    && (forall t :: t in s.level ==> lo <= s.level[t] <= 4)
    && (forall t :: t in s.tables <==> t in s.level && s.level[t] >= 1)
    && DownOk(s, lo) && UpOk(s)
  }

  ghost predicate DownOk(s: Space, lo: nat) {
    forall t, i: nat :: t in s.tables && t in s.level && s.level[t] > lo && OwnSlot(s.level[t], i) ==> ChildOk(s, t, i)
  }

  ghost predicate ChildOk(s: Space, t: Frame, i: nat)
    requires t in s.tables && t in s.level && i < ENTRIES
  {
    var e := s.tables[t][i];
    && (s.level[t] > 1 && IsPresent(e) ==> e.frame != 0 && Writable in e.flags)
    && (Used(e) ==> e.frame in s.level && e.frame in s.parent && s.parent[e.frame] == (t, i)
                    && s.level[e.frame] + 1 == s.level[t])
  }

  ghost predicate UpOk(s: Space) {
    forall c :: c in s.parent ==> ParentOk(s, c)
  }

  ghost predicate ParentOk(s: Space, c: Frame)
    requires c in s.parent
  {
    var (t, i) := s.parent[c];
    && t in s.tables && t in s.level && c in s.level && s.level[t] == s.level[c] + 1 && OwnSlot(s.level[t], i)
    && IsPresent(s.tables[t][i]) && s.tables[t][i].frame == c
  }

  // ---------------------------------------------------------------- the walk

  /** The table at level l on the path of page n. */
  ghost function TableAt(s: Space, n: nat, l: nat): (r: Option<Frame>)
    requires 1 <= l <= 4
    decreases 4 - l
  {
    if l == 4 then Some(s.root)
    else
      var up := TableAt(s, n, l + 1);
      if up.Some? && up.value in s.tables && IsPresent(s.tables[up.value][Idx(n, l + 1)])
      then Some(s.tables[up.value][Idx(n, l + 1)].frame) else None
  }

  /** What the hardware finds for page n: the leaf entry, if every level is present. */
  ghost function Translate(s: Space, n: nat): (r: Option<Entry>) {
    var t := TableAt(s, n, 1);
    if t.Some? && t.value in s.tables && IsPresent(s.tables[t.value][Idx(n, 1)])
    then Some(s.tables[t.value][Idx(n, 1)]) else None
  }

  lemma {:induction false} TableAtLevel(s: Space, n: nat, l: nat)
    requires TreeOk(s, 1) && n < USER_PAGES && 1 <= l <= 4
    ensures var r := TableAt(s, n, l); r.Some? ==> r.value in s.tables && r.value in s.level && s.level[r.value] == l
    decreases 4 - l
  {
    if l < 4 {
      TableAtLevel(s, n, l + 1);
      Digits(n);
      var up := TableAt(s, n, l + 1);
      if up.Some? { assert ChildOk(s, up.value, Idx(n, l + 1)); }
    }
  }

  /** Pages whose paths meet at a table took the same slots above it. */
  lemma {:induction false} PathDetermined(s: Space, n: nat, m: nat, l: nat, k: nat)
    requires TreeOk(s, 1) && n < USER_PAGES && m < USER_PAGES && 1 <= l < k <= 4
    requires TableAt(s, n, l).Some? && TableAt(s, n, l) == TableAt(s, m, l)
    ensures Idx(n, k) == Idx(m, k)
    decreases 4 - l
  {
    var a, b := TableAt(s, n, l + 1).value, TableAt(s, m, l + 1).value;
    TableAtLevel(s, n, l + 1);
    TableAtLevel(s, m, l + 1);
    Digits(n);
    Digits(m);
    assert ChildOk(s, a, Idx(n, l + 1)) && ChildOk(s, b, Idx(m, l + 1));
    if k > l + 1 { PathDetermined(s, n, m, l + 1, k); }
  }
}
