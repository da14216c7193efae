/** What normalising a path means: the stack of its components. */
module Paths {
  import opened Base

  /** The length of the component at the start of a string. */
  function CompLen(s: string): (n: nat)
    ensures n <= |s| && (forall i :: 0 <= i < n ==> s[i] != '/') && (n < |s| ==> s[n] == '/')
  {
    if s == "" || s[0] == '/' then 0 else 1 + CompLen(s[1..])
  }

  /** The components of a path; repeated and trailing slashes separate nothing. */
  function Comps(s: string): (cs: seq<string>)
    decreases |s|
  {
    if s == "" then []
    else if s[0] == '/' then Comps(s[1..])
    else [s[..CompLen(s)]] + Comps(s[CompLen(s)..])
  }

  /** A component that is kept as it is. */
  predicate Plain(c: string) { c != "" && c != "." && c != ".." && '/' !in c && '\0' !in c }

  ghost predicate Canonical(stack: seq<string>) { forall i :: 0 <= i < |stack| ==> Plain(stack[i]) }

  /** The stack written out; the root is the empty text. */
  function Text(stack: seq<string>): (t: string) {
    if stack == [] then "" else Text(stack[..|stack| - 1]) + "/" + stack[|stack| - 1]
  }

  function Pop(stack: seq<string>): (r: seq<string>) { if stack == [] then [] else stack[..|stack| - 1] }

  /** One component: nothing for ".", one up for "..", else one deeper if the text still fits with its terminator. */
  function Enter(stack: seq<string>, c: string, cap: nat): (r: Option<seq<string>>) {
    if c == "." then Some(stack)
    else if c == ".." then Some(Pop(stack))
    else if |Text(stack + [c])| + 1 <= cap then Some(stack + [c])
    else None
  }

  /** All components in turn. */
  function Walk(stack: seq<string>, cs: seq<string>, cap: nat): (r: Option<seq<string>>)
    decreases |cs|
  {
    if cs == [] then Some(stack)
    else
      var next := Enter(stack, cs[0], cap);
      if next.None? then None else Walk(next.value, cs[1..], cap)
  }

  /** The path a stack stands for. */
  function Path(stack: seq<string>): (p: string)
    ensures p != ""
  {
    if stack == [] then "/" else Text(stack)
  }

  /** The normal form of an absolute path in a buffer. */
  function Normal(s: string, cap: nat): (r: Option<string>) {
    var w := Walk([], Comps(s), cap);
    if w.None? then None else Some(Path(w.value))
  }

  // ---------- facts ----------

  lemma TextPush(stack: seq<string>, c: string)
    ensures Text(stack + [c]) == Text(stack) + "/" + c
  {
  }

  lemma {:induction false} CompsPlain(s: string)
    requires '\0' !in s
    ensures forall i :: 0 <= i < |Comps(s)| ==> Comps(s)[i] != "" && '/' !in Comps(s)[i] && '\0' !in Comps(s)[i]
    decreases |s|
  {
    if s != "" {
      if s[0] == '/' { CompsPlain(s[1..]); } else { CompsPlain(s[CompLen(s)..]); }
    }
  }

  ghost predicate Proper(cs: seq<string>) {
    forall i :: 0 <= i < |cs| ==> cs[i] != "" && '/' !in cs[i] && '\0' !in cs[i]
  }

  /** Walking keeps the stack canonical and within the buffer. */
  lemma {:induction false} WalkCanonical(stack: seq<string>, cs: seq<string>, cap: nat)
    requires Canonical(stack) && Proper(cs) && |Text(stack)| + 1 <= cap
    ensures var r := Walk(stack, cs, cap); r.Some? ==> Canonical(r.value) && |Text(r.value)| + 1 <= cap
    decreases |cs|
  {
    if cs != [] {
      EnterCanonical(stack, cs[0], cap);
      var next := Enter(stack, cs[0], cap);
      if next.Some? { WalkCanonical(next.value, cs[1..], cap); }
    }
  }

  lemma EnterCanonical(stack: seq<string>, c: string, cap: nat)
    requires Canonical(stack) && c != "" && '/' !in c && '\0' !in c && |Text(stack)| + 1 <= cap
    ensures var r := Enter(stack, c, cap); r.Some? ==> Canonical(r.value) && |Text(r.value)| + 1 <= cap
  {
  }

  lemma {:induction false} CompLenOf(c: string, rest: string)
    requires '/' !in c && (rest == "" || rest[0] == '/')
    ensures CompLen(c + rest) == |c|
  {
    if c == "" {
      assert c + rest == rest;
    } else {
      assert (c + rest)[1..] == c[1..] + rest;
      CompLenOf(c[1..], rest);
    }
  }

  /** Components of a text followed by more. */
  lemma {:induction false} CompsOfText(stack: seq<string>, rest: string)
    requires Canonical(stack) && (rest == "" || rest[0] == '/')
    ensures Comps(Text(stack) + rest) == stack + Comps(rest)
    decreases |stack|
  {
    hide Comps;
    if stack == [] {
      assert Text(stack) + rest == rest;
    } else {
      var n := |stack| - 1;
      var c := stack[n];
      var tail := "/" + c + rest;
      assert Text(stack) + rest == Text(stack[..n]) + tail;
      CompsOfText(stack[..n], tail);
      CompsNext(c, rest);
      assert stack == stack[..n] + [c];
    }
  }

  lemma CompsNext(c: string, rest: string)
    requires Plain(c) && (rest == "" || rest[0] == '/')
    ensures Comps("/" + c + rest) == [c] + Comps(rest)
  {
    var s := c + rest;
    assert ("/" + c + rest)[1..] == s && s[0] == c[0];
    CompLenOf(c, rest);
    assert s[..|c|] == c && s[|c|..] == rest;
  }

  lemma {:induction false} TextMono(stack: seq<string>, k: nat)
    requires k <= |stack|
    ensures |Text(stack[..k])| <= |Text(stack)|
    decreases |stack|
  {
    if k < |stack| {
      assert stack[..|stack| - 1][..k] == stack[..k];
      TextMono(stack[..|stack| - 1], k);
    } else {
      assert stack[..k] == stack;
    }
  }

  /** Plain components that fit are simply pushed. */
  lemma {:induction false} WalkPushes(stack: seq<string>, cs: seq<string>, cap: nat)
    requires Canonical(cs) && |Text(stack + cs)| + 1 <= cap
    ensures Walk(stack, cs, cap) == Some(stack + cs)
    decreases |cs|
  {
    if cs == [] {
      assert stack + cs == stack;
    } else {
      var next := stack + [cs[0]];
      assert next + cs[1..] == stack + cs && (stack + cs)[..|stack| + 1] == next;
      TextMono(stack + cs, |stack| + 1);
      WalkPushes(next, cs[1..], cap);
    }
  }

  /** Normal paths are canonical texts within the buffer, and normalising again changes nothing. */
  lemma NormalIsStable(s: string, cap: nat)
    requires '\0' !in s && cap >= 2
    ensures var r := Normal(s, cap); r.Some? ==> |r.value| + 1 <= cap && Normal(r.value, cap) == r
  {
    CompsPlain(s);
    WalkCanonical([], Comps(s), cap);
    var w := Walk([], Comps(s), cap);
    if w.Some? {
      var stack := w.value;
      if stack == [] {
        assert Comps("/") == Comps("/"[1..]) == [];
      } else {
        CompsOfText(stack, "");
        assert Text(stack) + "" == Text(stack) && stack + Comps("") == stack && [] + stack == stack;
        WalkPushes([], stack, cap);
      }
    }
  }

  // ---------- joined paths ----------

  lemma {:induction false} WalkConcat(stack: seq<string>, a: seq<string>, b: seq<string>, cap: nat)
    ensures Walk(stack, a + b, cap) == var w := Walk(stack, a, cap); if w.None? then None else Walk(w.value, b, cap)
    decreases |a|
  {
    if a == [] {
      assert a + b == b;
    } else {
      assert (a + b)[0] == a[0] && (a + b)[1..] == a[1..] + b;
      var next := Enter(stack, a[0], cap);
      if next.Some? { WalkConcat(next.value, a[1..], b, cap); }
    }
  }

  lemma {:induction false} CompLenJoin(p: string, q: string)
    ensures CompLen(p + "/" + q) == CompLen(p)
  {
    if p != "" && p[0] != '/' {
      assert (p + "/" + q)[1..] == p[1..] + "/" + q;
      CompLenJoin(p[1..], q);
    }
  }

  /** A slash between two paths joins their components. */
  lemma {:induction false} CompsJoin(p: string, q: string)
    ensures Comps(p + "/" + q) == Comps(p) + Comps(q)
    decreases |p|
  {
    hide Comps, CompLen;
    var s, n := p + "/" + q, CompLen(p);
    CompsCases(p);
    CompsCases(s);
    if p == "" {
      assert s[1..] == q;
    } else if p[0] == '/' {
      assert s[1..] == p[1..] + "/" + q;
      CompsJoin(p[1..], q);
    } else {
      CompLenJoin(p, q);
      assert s[..n] == p[..n] && s[n..] == p[n..] + "/" + q;
      CompsJoin(p[n..], q);
    }
  }

  lemma CompsCases(s: string)
    ensures s == "" ==> Comps(s) == []
    ensures s != "" && s[0] == '/' ==> Comps(s) == Comps(s[1..])
    ensures s != "" && s[0] != '/' ==> CompLen(s) > 0 && Comps(s) == [s[..CompLen(s)]] + Comps(s[CompLen(s)..])
  {
  }

  /** Walking p and from there q is walking p/q: a relative path means the same from a directory and joined to it. */
  lemma WalkJoined(stack: seq<string>, p: string, q: string, cap: nat)
    ensures Walk(stack, Comps(p + "/" + q), cap)
            == var w := Walk(stack, Comps(p), cap); if w.None? then None else Walk(w.value, Comps(q), cap)
  {
    CompsJoin(p, q);
    WalkConcat(stack, Comps(p), Comps(q), cap);
  }

  /** Plain components that were all entered fit. */
  lemma {:induction false} WalkFits(stack: seq<string>, cs: seq<string>, cap: nat)
    requires Canonical(cs) && cs != [] && Walk(stack, cs, cap).Some?
    ensures |Text(stack + cs)| + 1 <= cap
    decreases |cs|
  {
    var next := stack + [cs[0]];
    if cs[1..] == [] {
      assert cs == [cs[0]];
    } else {
      assert next + cs[1..] == stack + cs;
      WalkFits(next, cs[1..], cap);
    }
  }

  /** The text of a directory, a slash and a path, from the root: as the path from that directory, if the directory
      itself fits the buffer. */
  lemma FromDirectory(dir: seq<string>, s: string, cap: nat)
    requires Canonical(dir)
    ensures Walk([], Comps(Text(dir) + "/" + s), cap)
            == if dir == [] || |Text(dir)| + 1 <= cap then Walk(dir, Comps(s), cap) else None
  {
    WalkJoined([], Text(dir), s, cap);
    CompsOfText(dir, "");
    assert Text(dir) + "" == Text(dir) && dir + Comps("") == dir && [] + dir == dir;
    if dir != [] {
      if |Text(dir)| + 1 <= cap { WalkPushes([], dir, cap); }
      if Walk([], dir, cap).Some? { WalkFits([], dir, cap); }
    }
  }

  // ---------- what "." and ".." mean ----------

  /** A name without slashes is one component. */
  lemma CompsOne(c: string)
    requires c != "" && '/' !in c
    ensures Comps(c) == [c]
  {
    CompLenOf(c, "");
    assert c + "" == c && c[..|c|] == c && c[|c|..] == "";
  }

  /** From any directory: "." stays there, ".." leads back from a directory to where it was entered from and stays at
      the root, and any other name that fits leads one deeper. */
  lemma Meaning(stack: seq<string>, c: string, cap: nat)
    requires c != "" && '/' !in c
    ensures Walk(stack, Comps("."), cap) == Some(stack)
    ensures Walk([], Comps(".."), cap) == Some([]) && Walk(stack + [c], Comps(".."), cap) == Some(stack)
    ensures Plain(c) ==>
            Walk(stack, Comps(c), cap) == if |Text(stack + [c])| + 1 <= cap then Some(stack + [c]) else None
  {
    hide Comps, Text;
    CompsOne(".");
    CompsOne("..");
    CompsOne(c);
    assert (stack + [c])[..|stack|] == stack;
  }

  /** A name followed by ".." cancels out, if the name fits where it is entered. */
  lemma UpCancels(stack: seq<string>, c: string, q: string, cap: nat)
    requires Plain(c) && |Text(stack + [c])| + 1 <= cap
    ensures Walk(stack, Comps(c + "/../" + q), cap) == Walk(stack, Comps(q), cap)
  {
    hide Comps, Text, Walk;
    Meaning(stack, c, cap);
    assert c + "/../" + q == c + "/" + (".." + "/" + q);
    WalkJoined(stack, c, ".." + "/" + q, cap);
    WalkJoined(stack + [c], "..", q, cap);
  }

  /** In the middle of a path: "." and repeated slashes mean nothing, and a name followed by ".." cancels out. */
  lemma NormalCancels(p: string, c: string, q: string, cap: nat)
    requires Plain(c)
    ensures Normal(p + "/./" + q, cap) == Normal(p + "/" + q, cap)
    ensures Normal(p + "//" + q, cap) == Normal(p + "/" + q, cap)
    ensures var w := Walk([], Comps(p), cap);
            w.Some? && |Text(w.value + [c])| + 1 <= cap ==>
              Normal(p + "/" + c + "/../" + q, cap) == Normal(p + "/" + q, cap)
    ensures Normal("/../" + q, cap) == Normal("/" + q, cap)
  {
    hide Comps, Text, Walk;
    WalkJoined([], p, q, cap);
    assert p + "/./" + q == p + "/" + ("." + "/" + q) && p + "//" + q == p + "/" + ("" + "/" + q);
    WalkJoined([], p, "." + "/" + q, cap);
    WalkJoined([], p, "" + "/" + q, cap);
    CompsJoin("", q);
    NoComps();
    assert [] + Comps(q) == Comps(q);
    var w := Walk([], Comps(p), cap);
    if w.Some? {
      Meaning(w.value, c, cap);
      WalkJoined(w.value, ".", q, cap);
      if |Text(w.value + [c])| + 1 <= cap {
        assert p + "/" + c + "/../" + q == p + "/" + (c + "/../" + q);
        WalkJoined([], p, c + "/../" + q, cap);
        UpCancels(w.value, c, q, cap);
      }
    }
    RootUp(q, cap);
  }

  lemma NoComps()
    ensures Comps("") == []
  {
  }

  lemma RootUp(q: string, cap: nat)
    ensures Walk([], Comps("/../" + q), cap) == Walk([], Comps("/" + q), cap)
  {
    hide Comps, Walk;
    assert "/../" + q == "" + "/" + (".." + "/" + q) && "/" + q == "" + "/" + q;
    CompsJoin("", ".." + "/" + q);
    CompsJoin("", q);
    NoComps();
    assert [] + Comps(".." + "/" + q) == Comps(".." + "/" + q) && [] + Comps(q) == Comps(q);
    WalkJoined([], "..", q, cap);
    Meaning([], "a", cap);
  }
}
