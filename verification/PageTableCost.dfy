/** How many page tables a mapping has to create, read off the tables that exist. */
module PageTableCost {
  import opened Base
  import opened PageTableModel
  import opened PageTableSteps

  /** The walks of m and n take the same slots above level l. */
  predicate SamePath(m: nat, n: nat, l: nat) {
    (l < 4 ==> Idx(m, 4) == Idx(n, 4)) && (l < 3 ==> Idx(m, 3) == Idx(n, 3)) && (l < 2 ==> Idx(m, 2) == Idx(n, 2))
  }

  /** The walk of page n reaches a table at level l. */
  ghost predicate HasTable(s: Space, n: nat, l: nat)
    requires 1 <= l <= 4
  {
    TableAt(s, n, l).Some?
  }

  ghost function Lacks(s: Space, n: nat, l: nat): (k: nat)
    requires 1 <= l <= 4
  {
    if HasTable(s, n, l) then 0 else 1
  }

  /** The tables that mapping page n creates. */
  ghost function Missing(s: Space, n: nat): (k: nat) { Lacks(s, n, 3) + Lacks(s, n, 2) + Lacks(s, n, 1) }

  /** Space r has the tables of s and those on the path of page n at levels from lo to 3. */
  ghost predicate Added(r: Space, s: Space, n: nat, lo: nat)
    requires 1 <= lo
  {
    forall m, l :: 0 <= m < USER_PAGES && 1 <= l <= 3 ==>
      (HasTable(r, m, l) <==> HasTable(s, m, l) || (lo <= l && SamePath(m, n, l)))
  }

  lemma {:induction false} PathSame(s: Space, m: nat, n: nat, l: nat)
    requires 1 <= l <= 4 && SamePath(m, n, l)
    ensures TableAt(s, m, l) == TableAt(s, n, l)
    decreases 4 - l
  {
    if l < 4 { PathSame(s, m, n, l + 1); }
  }

  /** Walks that meet at a table are the walks that take the same slots. */
  lemma MeetIff(s: Space, m: nat, n: nat, l: nat, t: Frame)
    requires TreeOk(s, 1) && m < USER_PAGES && n < USER_PAGES && 1 <= l <= 4 && TableAt(s, n, l) == Some(t)
    ensures TableAt(s, m, l) == Some(t) <==> SamePath(m, n, l)
  {
    hide TreeOk, TableAt;
    if TableAt(s, m, l) == Some(t) {
      if l < 4 { PathDetermined(s, n, m, l, 4); }
      if l < 3 { PathDetermined(s, n, m, l, 3); }
      if l < 2 { PathDetermined(s, n, m, l, 2); }
    }
    if SamePath(m, n, l) { PathSame(s, m, n, l); }
  }

  lemma SamePathStep(m: nat, n: nat, l: nat)
    requires 2 <= l <= 4
    ensures SamePath(m, n, l - 1) <==> SamePath(m, n, l) && Idx(m, l) == Idx(n, l)
  {
  }

  /** One step of a walk that got or created the next table, seen by every page. */
  lemma StepAdds(r: Space, s: Space, t: Frame, n: nat, l: nat, f: Option<Frame>)
    requires TreeOk(s, 1) && n < USER_PAGES && 2 <= l <= 4 && TableAt(s, n, l) == Some(t) && f.Some?
    requires forall m, k :: 0 <= m < USER_PAGES && 1 <= k <= 4 ==>
               TableAt(r, m, k) == if NewHere(s, t, Idx(n, l), m, k) then f else TableAt(s, m, k)
    ensures forall m, k :: 0 <= m < USER_PAGES && 1 <= k <= 3 ==>
              (HasTable(r, m, k) <==> HasTable(s, m, k) || (k == l - 1 && SamePath(m, n, k)))
  {
    hide TreeOk, TableAt, SamePath;
    TableLevel(s, n, l, t);
    forall m, k | 0 <= m < USER_PAGES && 1 <= k <= 3
      ensures HasTable(r, m, k) <==> HasTable(s, m, k) || (k == l - 1 && SamePath(m, n, k))
    {
      MeetIff(s, m, n, l, t);
      SamePathStep(m, n, l);
      assert TableAt(r, m, k) == if NewHere(s, t, Idx(n, l), m, k) then f else TableAt(s, m, k);
    }
  }

  lemma TableLevel(s: Space, n: nat, l: nat, t: Frame)
    requires TreeOk(s, 1) && n < USER_PAGES && 1 <= l <= 4 && TableAt(s, n, l) == Some(t)
    ensures t in s.tables && t in s.level && s.level[t] == l
  {
    TableAtLevel(s, n, l);
  }

  lemma AddedNone(s: Space, n: nat)
    ensures Added(s, s, n, 4)
  {
    hide TableAt;
  }

  lemma AddedStep(r: Space, q: Space, s: Space, n: nat, l: nat)
    requires 2 <= l <= 4 && Added(q, s, n, l)
    requires forall m, k :: 0 <= m < USER_PAGES && 1 <= k <= 3 ==>
               (HasTable(r, m, k) <==> HasTable(q, m, k) || (k == l - 1 && SamePath(m, n, k)))
    ensures Added(r, s, n, l - 1)
  {
    hide HasTable, SamePath;
  }

  // ---------------------------------------------------------------- consecutive pages

  /** Page n is the first of a growth from lo on that needs its table at level l. */
  ghost function Adds(s: Space, lo: nat, n: nat, l: nat): (k: nat)
    requires 1 <= l <= 4
  {
    if n <= lo || !SamePath(n - 1, n, l) then Lacks(s, n, l) else 0
  }

  /** Frames that mapping k pages from lo on takes: one for each page, and one for each table that does not exist. */
  ghost function Cost(s: Space, lo: nat, k: nat): (c: nat)
    ensures c >= k
  {
    if k == 0 then 0
    else Cost(s, lo, k - 1) + 1 + Adds(s, lo, lo + k - 1, 3) + Adds(s, lo, lo + k - 1, 2) + Adds(s, lo, lo + k - 1, 1)
  }

  lemma {:induction false} CostGrows(s: Space, lo: nat, j: nat, k: nat)
    requires j < k
    ensures Cost(s, lo, j) < Cost(s, lo, k)
    decreases k
  {
    if j < k - 1 { CostGrows(s, lo, j, k - 1); }
  }

  function Span(l: nat): (n: nat)
    ensures n > 0
  {
    if l == 1 then 512 else if l == 2 then 262144 else 134217728
  }

  lemma SamePathIff(m: nat, n: nat, l: nat)
    requires m < USER_PAGES && n < USER_PAGES && 1 <= l <= 3
    ensures SamePath(m, n, l) <==> m / Span(l) == n / Span(l)
  {
    Prefix(m, l);
    Prefix(n, l);
  }

  /** The indices above level l are the digits of the page number divided by the pages one table covers. */
  lemma Prefix(n: nat, l: nat)
    requires n < USER_PAGES && 1 <= l <= 3
    ensures n / 134217728 == Idx(n, 4)
    ensures n / 262144 == Idx(n, 4) * 512 + Idx(n, 3)
    ensures n / 512 == (Idx(n, 4) * 512 + Idx(n, 3)) * 512 + Idx(n, 2)
  {
    Digits(n);
    DivTwice(n);
    DivTwice(n / 512);
  }

  lemma DivMono(a: nat, b: nat, d: nat)
    requires a <= b && d > 0
    ensures a / d <= b / d
  {
    var q, p := a / d, b / d;
    assert a == q * d + a % d && b == p * d + b % d;
    if p < q {
      MulGap(p, q, d);
    }
  }

  /** Between two pages of one table every page is of that table. */
  lemma SamePathBetween(a: nat, b: nat, c: nat, l: nat)
    requires a <= b <= c < USER_PAGES && 1 <= l <= 3 && SamePath(a, c, l)
    ensures SamePath(b, c, l)
  {
    hide SamePath, Span;
    SamePathIff(a, c, l);
    SamePathIff(b, c, l);
    DivMono(a, b, Span(l));
    DivMono(b, c, Span(l));
  }

  /** After pages lo .. n-1 are mapped: for pages from n on, the tables of s and those of page n-1. */
  ghost predicate GrownTo(r: Space, s: Space, lo: nat, n: nat) {
    forall m, l :: n <= m < USER_PAGES && 1 <= l <= 3 ==>
      (HasTable(r, m, l) <==> HasTable(s, m, l) || (n > lo && SamePath(n - 1, m, l)))
  }

  lemma GrownNone(s: Space, lo: nat)
    ensures GrownTo(s, s, lo, lo)
  {
    hide HasTable, SamePath;
  }

  lemma GrownStep(r: Space, q: Space, s: Space, lo: nat, n: nat)
    requires GrownTo(q, s, lo, n) && Added(r, q, n, 1) && lo <= n < USER_PAGES
    ensures GrownTo(r, s, lo, n + 1)
  {
    hide HasTable, SamePath;
    forall m, l | n + 1 <= m < USER_PAGES && 1 <= l <= 3
      ensures HasTable(r, m, l) <==> HasTable(s, m, l) || SamePath(n, m, l)
    {
      if n > lo && SamePath(n - 1, m, l) { SamePathBetween(n - 1, n, m, l); }
      SamePathSymmetric(m, n, l);
    }
  }

  lemma SamePathSymmetric(m: nat, n: nat, l: nat)
    ensures SamePath(m, n, l) == SamePath(n, m, l)
  {
  }

  /** What the next page lacks is what it adds to the cost. */
  lemma NextCost(r: Space, s: Space, lo: nat, n: nat)
    requires GrownTo(r, s, lo, n) && lo <= n < USER_PAGES
    ensures Cost(s, lo, n - lo + 1) == Cost(s, lo, n - lo) + 1 + Missing(r, n)
  {
    hide HasTable, SamePath;
    assert lo + (n - lo + 1) - 1 == n;
  }

  /** A mapped page lacks no table. */
  lemma MappedLacksNone(s: Space, n: nat)
    requires Translate(s, n).Some?
    ensures Missing(s, n) == 0 && forall lo: nat :: lo == n ==> Cost(s, lo, 1) == 1
  {
    assert TableAt(s, n, 1).Some? && TableAt(s, n, 2).Some? && TableAt(s, n, 3).Some?;
    assert Cost(s, n, 0) == 0;
  }
}
