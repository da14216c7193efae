/** Linked lists whose nodes are slots of a table and whose link fields hold slot numbers. */
module IndexLists {
  import opened Base

  const NIL := -1

  /** From `head`, the link field spells out s. */
  ghost predicate Chained(link: seq<int>, head: int, s: seq<nat>) {
    && Below(s, |link|)
    && head == (if s == [] then NIL else s[0])
    && (forall j {:trigger link[s[j]]} :: 0 <= j < |s| ==> link[s[j]] == (if j + 1 < |s| then s[j + 1] else NIL))
  }

  /** From `tail`, the link field spells out s backwards. */
  ghost predicate ChainedBack(link: seq<int>, tail: int, s: seq<nat>) {
    && Below(s, |link|)
    && tail == (if s == [] then NIL else s[|s| - 1])
    && (forall j {:trigger link[s[j]]} :: 0 <= j < |s| ==> link[s[j]] == (if j > 0 then s[j - 1] else NIL))
  }

  lemma ChainedFrame(link: seq<int>, head: int, s: seq<nat>, link': seq<int>)
    requires Chained(link, head, s) && |link'| == |link| && forall j :: 0 <= j < |s| ==> link'[s[j]] == link[s[j]]
    ensures Chained(link', head, s)
  {
  }

  lemma ChainedPush(link: seq<int>, head: int, s: seq<nat>, x: nat)
    requires Chained(link, head, s) && x < |link| && x !in s
    ensures Chained(link[x := head], x, [x] + s)
  {
  }

  /** Unlinking position p from a forward list. */
  lemma ChainedCut(link: seq<int>, head: int, s: seq<nat>, p: nat, link': seq<int>)
    requires Chained(link, head, s) && NoDup(s) && p < |s|
    requires link' == if p > 0 then link[s[p - 1] := link[s[p]]][s[p] := NIL] else link[s[p] := NIL]
    ensures Chained(link', if p > 0 then head else link[s[p]], s[..p] + s[p + 1..])
  {
  }

  /** Pushing at the front of a backward list. */
  lemma BackPush(link: seq<int>, tail: int, s: seq<nat>, x: nat, link': seq<int>)
    requires ChainedBack(link, tail, s) && x < |link| && x !in s && NoDup(s)
    requires link' == if s == [] then link[x := NIL] else link[x := NIL][s[0] := x]
    ensures ChainedBack(link', if s == [] then x else tail, [x] + s)
  {
  }

  /** Unlinking position p from a backward list. */
  lemma BackCut(link: seq<int>, tail: int, s: seq<nat>, p: nat, link': seq<int>)
    requires ChainedBack(link, tail, s) && NoDup(s) && p < |s|
    requires link' == if p + 1 < |s| then link[s[p + 1] := link[s[p]]][s[p] := NIL] else link[s[p] := NIL]
    ensures ChainedBack(link', if p + 1 < |s| then tail else link[s[p]], s[..p] + s[p + 1..])
  {
  }

  /** Appending at the tail of a forward list. */
  lemma ChainedAppend(link: seq<int>, head: int, s: seq<nat>, x: nat, link': seq<int>)
    requires Chained(link, head, s) && NoDup(s) && x < |link| && x !in s
    requires link' == if s == [] then link[x := NIL] else link[x := NIL][s[|s| - 1] := x]
    ensures Chained(link', if s == [] then x else head, s + [x])
  {
  }

  /** Taking the head off a forward list. */
  lemma ChainedPop(link: seq<int>, head: int, s: seq<nat>)
    requires Chained(link, head, s) && NoDup(s) && s != []
    ensures Chained(link[head := NIL], link[head], s[1..]) && NoDup(s[1..])
  {
  }
}
