/** syscall.c and shell.c: path normalisation in a character buffer, twice. */
module PathBuffers {
  import opened Base
  import opened Paths

  /** A buffer holding a C string. */
  ghost predicate Holds(a: array<char>, s: string)
    reads a
  {
    |s| < a.Length && a[..|s|] == s && a[|s|] == '\0' && '\0' !in s
  }

  method StrLen(a: array<char>, ghost s: string) returns (n: nat)
    requires Holds(a, s)
    ensures n == |s|
  {
    n := 0;
    HoldsChars(a, s);
    while a[n] != '\0'
      invariant n <= |s|
      decreases |s| - n
    {
      n := n + 1;
    }
  }

  lemma HoldsChars(a: array<char>, s: string)
    requires Holds(a, s)
    ensures forall i :: 0 <= i < |s| ==> a[i] == s[i]
  {
  }

  /** A text cut after its first n characters. */
  lemma Cut(a: array<char>, s: string, n: nat, t: string)
    requires n <= |s| < a.Length && a[..n] == s[..n] && a[n] == '\0' && '\0' !in s && t == s[..n]
    ensures Holds(a, t)
  {
  }

  /** The last component of a text and where it starts. */
  lemma LastSlash(stack: seq<string>)
    requires Canonical(stack) && stack != []
    ensures var t, n := Text(stack), |Text(Pop(stack))|;
            n < |t| && t[n] == '/' && t[..n] == Text(Pop(stack)) && (forall i :: n < i < |t| ==> t[i] != '/')
            && |t| > n + 1
  {
  }

  lemma {:induction false} TextClean(stack: seq<string>)
    requires Canonical(stack)
    ensures '\0' !in Text(stack) && (stack != [] ==> Text(stack)[0] == '/')
    decreases |stack|
  {
    if stack != [] { TextClean(stack[..|stack| - 1]); }
  }

  // ---------- the kernel's ----------

  /** pop_path_component. */
  method PopPathComponent(path: array<char>, ghost stack: seq<string>)
    requires Canonical(stack) && Holds(path, Text(stack))
    modifies path
    ensures Holds(path, Text(Pop(stack)))
  {
    hide Text;
    TextEmpty();
    if path[0] == '\0' {
      NonemptyText(stack, path);
      return;
    }
    ghost var t := Text(stack);
    var len := StrLen(path, t);
    TextEmptyIff(stack);
    LastSlash(stack);
    HoldsChars(path, t);
    ghost var n := |Text(Pop(stack))|;
    while len > 0 && path[len - 1] != '/'
      invariant n < len <= |t|
    {
      len := len - 1;
    }
    if len <= 1 {
      path[0] := '\0';
      assert t[..0] == "";
      Cut(path, t, 0, Text(Pop(stack)));
      return;
    }
    path[len - 1] := '\0';
    assert path[..n] == t[..n];
    Cut(path, t, n, Text(Pop(stack)));
  }

  lemma TextEmpty()
    ensures Text([]) == ""
  {
  }

  lemma TextEmptyIff(stack: seq<string>)
    ensures Text(stack) == "" <==> stack == []
  {
  }

  lemma NonemptyText(stack: seq<string>, path: array<char>)
    requires Holds(path, Text(stack)) && path[0] == '\0'
    ensures stack == []
  {
  }

  /** A slash and a component written behind a text of length n. */
  method WriteBehind(out: array<char>, n: nat, c: string, ghost t: string)
    requires Holds(out, t) && n == |t| && n + 1 + |c| + 1 <= out.Length && '\0' !in c
    modifies out
    ensures Holds(out, t + "/" + c)
  {
    out[n] := '/';
    forall i | 0 <= i < |c| {
      out[n + 1 + i] := c[i];
    }
    out[n + 1 + |c|] := '\0';
    ghost var r := t + "/" + c;
    forall i | 0 <= i < |r| ensures out[i] == r[i] {
      if i > n { assert out[n + 1 + (i - n - 1)] == c[i - n - 1]; }
    }
    assert out[..|r|] == r;
  }

  /** append_path_component. */
  method AppendPathComponent(out: array<char>, c: string, ghost stack: seq<string>) returns (ok: bool)
    requires Canonical(stack) && Holds(out, Text(stack)) && c != "" && '/' !in c && '\0' !in c && out.Length >= 2
    modifies out
    ensures ok <==> Enter(stack, c, out.Length).Some?
    ensures ok ==> Holds(out, Text(Enter(stack, c, out.Length).value))
  {
    hide Text;
    if c == "." {
      return true;
    }
    if c == ".." {
      PopPathComponent(out, stack);
      return true;
    }
    TextPush(stack, c);
    var outLen := StrLen(out, Text(stack));
    if outLen == 0 {
      if |c| + 2 > out.Length {
        return false;
      }
      WriteBehind(out, 0, c, Text(stack));
      return true;
    }
    if outLen + 1 + |c| + 1 > out.Length {
      return false;
    }
    WriteBehind(out, outLen, c, Text(stack));
    return true;
  }

  /** Separators passed over. */
  method SkipSlashes(s: string, p: nat) returns (start: nat)
    requires p <= |s|
    ensures p <= start <= |s| && Comps(s[p..]) == Comps(s[start..]) && (start < |s| ==> s[start] != '/')
  {
    start := p;
    while start < |s| && s[start] == '/'
      invariant p <= start <= |s| && Comps(s[p..]) == Comps(s[start..])
    {
      assert s[start..][1..] == s[start + 1..];
      start := start + 1;
    }
  }

  /** The end of the component at a position. */
  method ComponentEnd(s: string, start: nat) returns (end: nat)
    requires start < |s|
    ensures start <= end <= |s| && end - start == CompLen(s[start..])
  {
    hide CompLen;
    ghost var rest := s[start..];
    end := start;
    while end < |s| && s[end] != '/'
      invariant start <= end <= start + CompLen(rest) <= |s|
      decreases |s| - end
    {
      assert rest[end - start] == s[end];
      end := end + 1;
    }
    assert end < |s| ==> rest[end - start] == s[end];
  }

  /** The scan that both normalisers make for the next component. */
  method NextComponent(s: string, p: nat) returns (start: nat, end: nat)
    requires p <= |s|
    ensures p <= start <= end <= |s|
    ensures start == |s| ==> Comps(s[p..]) == []
    ensures start < |s| ==> start < end && Comps(s[p..]) == [s[start..end]] + Comps(s[end..])
  {
    start := SkipSlashes(s, p);
    end := start;
    if start < |s| {
      end := ComponentEnd(s, start);
      ghost var rest := s[start..];
      assert rest[0] == s[start] && rest[..CompLen(rest)] == s[start..end] && rest[CompLen(rest)..] == s[end..];
    }
  }

  /** normalize_absolute_path. */
  method NormalizeAbsolutePath(s: string, out: array<char>) returns (ok: bool)
    requires '\0' !in s
    modifies out
    ensures ok <==> s != "" && s[0] == '/' && out.Length >= 2 && Normal(s, out.Length).Some?
    ensures ok ==> Holds(out, Normal(s, out.Length).value)
  {
    hide Text, Comps;
    if out.Length < 2 || s == "" || s[0] != '/' {
      return false;
    }
    out[0] := '\0';
    ghost var stack: seq<string> := [];
    TextEmpty();
    var p := 0;
    assert s[0..] == s;
    while p < |s|
      invariant p <= |s| && Canonical(stack) && Holds(out, Text(stack))
      invariant Walk([], Comps(s), out.Length) == Walk(stack, Comps(s[p..]), out.Length)
      decreases |s| - p
    {
      var start, end := NextComponent(s, p);
      if start == |s| {
        p := start;
        CompsNone();
        assert s[p..] == "";
        break;
      }
      var c := s[start..end];
      NoNul(s, p, start, end);
      ghost var next := Enter(stack, c, out.Length);
      TextLenHeld(out, stack);
      EnterCanonical(stack, c, out.Length);
      ok := AppendPathComponent(out, c, stack);
      WalkFirst(stack, c, Comps(s[end..]), out.Length);
      if !ok {
        return;
      }
      stack := next.value;
      p := end;
    }
    CompsNone();
    assert s[p..] == "";
    TextEmptyIff(stack);
    if out[0] == '\0' {
      NonemptyText(stack, out);
      out[0], out[1] := '/', '\0';
      assert out[..1] == "/";
    } else {
      TextShows(stack, out);
    }
    ok := true;
  }

  lemma CompsNone()
    ensures Comps("") == []
  {
  }

  lemma TextLenHeld(out: array<char>, stack: seq<string>)
    requires Holds(out, Text(stack))
    ensures |Text(stack)| + 1 <= out.Length
  {
  }

  lemma TextShows(stack: seq<string>, out: array<char>)
    requires Holds(out, Text(stack)) && out[0] != '\0'
    ensures stack != []
  {
  }

  lemma NoNul(s: string, p: nat, start: nat, end: nat)
    requires '\0' !in s && p <= start < end <= |s| && Comps(s[p..]) == [s[start..end]] + Comps(s[end..])
    ensures s[start..end] != "" && '/' !in s[start..end] && '\0' !in s[start..end]
  {
    CompsPlain(s[p..]);
    assert Comps(s[p..])[0] == s[start..end];
  }

  lemma WalkFirst(stack: seq<string>, c: string, cs: seq<string>, cap: nat)
    ensures var next := Enter(stack, c, cap);
            Walk(stack, [c] + cs, cap) == if next.None? then None else Walk(next.value, cs, cap)
  {
  }

  // ---------- the shell's ----------

  /** The shell keeps the root as "/"; before anything is entered its buffer may also be empty. */
  ghost predicate ShellHolds(a: array<char>, stack: seq<string>)
    reads a
  {
    Holds(a, Path(stack)) || (stack == [] && Holds(a, ""))
  }

  method SetRoot(path: array<char>)
    requires path.Length >= 2
    modifies path
    ensures Holds(path, "/")
  {
    path[0], path[1] := '/', '\0';
    assert path[..1] == "/";
  }

  /** Trailing slashes passed over, but for a leading one. */
  method TrimSlashes(path: array<char>, n: nat) returns (len: nat)
    requires n <= path.Length
    ensures len <= n && (n > 0 && path[n - 1] != '/' ==> len == n) && (n > 0 ==> len > 0)
    ensures len > 1 ==> path[len - 1] != '/'
  {
    len := n;
    while len > 1 && path[len - 1] == '/'
      invariant len <= n && (n > 0 ==> len > 0) && (n > 0 && path[n - 1] != '/' ==> len == n)
    {
      len := len - 1;
    }
  }

  /** shell_path_pop_component. */
  method ShellPop(path: array<char>, ghost stack: seq<string>)
    requires Canonical(stack) && ShellHolds(path, stack) && path.Length >= 2
    modifies path
    ensures Holds(path, Path(Pop(stack)))
  {
    hide Text;
    TextEmptyIff(stack);
    ghost var t := if Holds(path, Path(stack)) then Path(stack) else "";
    var len := StrLen(path, t);
    if len <= 1 {
      ShortText(stack);
      SetRoot(path);
      return;
    }
    LastSlash(stack);
    HoldsChars(path, t);
    ghost var n := |Text(Pop(stack))|;
    len := TrimSlashes(path, len);
    while len > 1 && path[len - 1] != '/'
      invariant n < len <= |t|
    {
      len := len - 1;
    }
    TextEmptyIff(Pop(stack));
    if len <= 1 {
      SetRoot(path);
      return;
    }
    path[len - 1] := '\0';
    assert path[..n] == t[..n];
    Cut(path, t, n, Text(Pop(stack)));
  }

  lemma ShortText(stack: seq<string>)
    requires Canonical(stack)
    ensures |Path(stack)| <= 1 <==> stack == []
  {
  }

  /** shell_path_append_component. */
  method ShellAppend(path: array<char>, c: string, ghost stack: seq<string>) returns (ok: bool)
    requires Canonical(stack) && ShellHolds(path, stack) && path.Length >= 2 && c != "" && '/' !in c && '\0' !in c
    modifies path
    ensures ok <==> Enter(stack, c, path.Length).Some?
    ensures ok ==> ShellHolds(path, Enter(stack, c, path.Length).value)
    ensures ok && old(Holds(path, Path(stack))) ==> Holds(path, Path(Enter(stack, c, path.Length).value))
  {
    hide Text;
    if c == "." {
      return true;
    }
    if c == ".." {
      ShellPop(path, stack);
      return true;
    }
    TextPush(stack, c);
    TextEmptyIff(stack);
    ShortText(stack);
    var len := StrLen(path, if Holds(path, Path(stack)) then Path(stack) else "");
    if len == 0 {
      SetRoot(path);
      len := 1;
    }
    assert Holds(path, Path(stack)) && len == |Path(stack)|;
    if len > 1 {
      if len + 1 >= path.Length {
        return false;
      }
      WriteBehind(path, len, "", Path(stack));
      len := len + 1;
    }
    if len + |c| + 1 > path.Length {
      return false;
    }
    WriteOn(path, len, c, Text(stack) + "/");
    return true;
  }

  /** A component written right behind a text of length n. */
  method WriteOn(out: array<char>, n: nat, c: string, ghost t: string)
    requires Holds(out, t) && n == |t| && n + |c| + 1 <= out.Length && '\0' !in c
    modifies out
    ensures Holds(out, t + c)
  {
    forall i | 0 <= i < |c| {
      out[n + i] := c[i];
    }
    out[n + |c|] := '\0';
    ghost var r := t + c;
    forall i | 0 <= i < |r| ensures out[i] == r[i] {
      if i >= n { assert out[n + (i - n)] == c[i - n]; }
    }
    assert out[..|r|] == r;
  }

  /** normalize_shell_path: from the root or, for a relative path, from the shell's directory. */
  method NormalizeShellPath(s: string, cwd: string, ghost cwdStack: seq<string>, out: array<char>) returns (ok: bool)
    requires '\0' !in s && Canonical(cwdStack) && cwd == Path(cwdStack)
    modifies out
    ensures var from := if s != "" && s[0] == '/' then [] else cwdStack;
            var w := Walk(from, Comps(s), out.Length);
            (ok <==> s != "" && out.Length >= 2 && |Path(from)| + 1 <= out.Length && w.Some?)
            && (ok ==> Holds(out, Path(w.value)))
  {
    hide Text, Comps;
    if s == "" || out.Length < 2 {
      return false;
    }
    ghost var from := if s[0] == '/' then [] else cwdStack;
    var p := 0;
    if s[0] == '/' {
      SetRoot(out);
      p := 1;
      CompsRoot(s);
    } else {
      if |cwd| + 1 > out.Length {
        return false;
      }
      forall i | 0 <= i < |cwd| {
        out[i] := cwd[i];
      }
      out[|cwd|] := '\0';
      assert out[..|cwd|] == cwd;
      PathClean(cwdStack);
      assert s[0..] == s;
    }
    ghost var stack := from;
    while p < |s|
      invariant p <= |s| && Canonical(stack) && Holds(out, Path(stack))
      invariant Walk(from, Comps(s), out.Length) == Walk(stack, Comps(s[p..]), out.Length)
      decreases |s| - p
    {
      var start, end := NextComponent(s, p);
      if start == |s| {
        p := start;
        CompsNone();
        assert s[p..] == "";
        break;
      }
      var c := s[start..end];
      NoNul(s, p, start, end);
      ghost var next := Enter(stack, c, out.Length);
      PathLen(stack);
      EnterCanonical(stack, c, out.Length);
      ok := ShellAppend(out, c, stack);
      WalkFirst(stack, c, Comps(s[end..]), out.Length);
      if !ok {
        return;
      }
      stack := next.value;
      p := end;
    }
    CompsNone();
    assert s[p..] == "";
    ok := true;
  }

  lemma CompsRoot(s: string)
    requires s != "" && s[0] == '/'
    ensures Comps(s) == Comps(s[1..])
  {
  }

  lemma PathClean(stack: seq<string>)
    requires Canonical(stack)
    ensures '\0' !in Path(stack)
  {
    TextClean(stack);
  }

  lemma PathLen(stack: seq<string>)
    ensures |Text(stack)| <= |Path(stack)|
  {
  }

  /** On an absolute path and buffers of one size, kernel and shell agree: both fail, or both give the normal form. */
  method BothNormalise(s: string, cwd: string, ghost cwdStack: seq<string>, a: array<char>, b: array<char>)
      returns (k: bool, h: bool)
    requires '\0' !in s && s != "" && s[0] == '/' && Canonical(cwdStack) && cwd == Path(cwdStack)
    requires a != b && a.Length == b.Length >= 2
    modifies a, b
    ensures k == h == Normal(s, a.Length).Some?
    ensures k ==> Holds(a, Normal(s, a.Length).value) && Holds(b, Normal(s, a.Length).value)
  {
    k := NormalizeAbsolutePath(s, a);
    h := NormalizeShellPath(s, cwd, cwdStack, b);
  }

  // ---------- relative paths ----------

  /** The buffer in which resolve_kernel_path joins directory and path. */
  const COMBINED := 512

  predicate JoinFits(dir: seq<string>, s: string) { |Text(dir)| + 1 + |s| + 1 <= COMBINED }

  /** resolve_kernel_path: a relative path is joined to the directory of the process and normalised from the root.
      The result is the path walked from that directory, and can be the next one. */
  method ResolveKernelPath(s: string, cwd: string, ghost dir: seq<string>, out: array<char>) returns (ok: bool)
    requires '\0' !in s && Canonical(dir) && (cwd == Path(dir) || (dir == [] && (cwd == "" || cwd[0] != '/')))
    modifies out
    ensures var relative := s != "" && s[0] != '/';
            var from := if relative then dir else [];
            var w := Walk(from, Comps(s), out.Length);
            (ok <==> s != "" && out.Length >= 2 && (relative ==> JoinFits(dir, s))
                     && |Path(from)| + 1 <= out.Length && w.Some?)
            && (ok ==> Holds(out, Path(w.value)) && Canonical(w.value))
  {
    hide Text, Comps, Walk;
    if s == "" || out.Length < 2 {
      return false;
    }
    if s[0] == '/' {
      ok := NormalizeAbsolutePath(s, out);
      RootText([]);
      ResultCanonical([], s, out.Length);
      return;
    }
    var base := if cwd != "" && cwd[0] == '/' then cwd else "/";
    var combined;
    PathStarts(dir);
    if base == "/" {
      RootText(dir);
      if 1 + |s| + 1 > COMBINED {
        return false;
      }
      combined := "/" + s;
    } else {
      if |base| + 1 + |s| + 1 > COMBINED {
        return false;
      }
      combined := base + "/" + s;
    }
    TextClean(dir);
    assert combined == Text(dir) + "/" + s;
    FromDirectory(dir, s, out.Length);
    ok := NormalizeAbsolutePath(combined, out);
    if ok { ResultCanonical(dir, s, out.Length); }
  }

  lemma PathStarts(dir: seq<string>)
    requires Canonical(dir)
    ensures Path(dir)[0] == '/' && (dir != [] ==> Path(dir) == Text(dir)) && (dir == [] ==> Path(dir) == "/")
  {
    TextClean(dir);
  }

  /** Only the root is written as a slash. */
  lemma RootText(dir: seq<string>)
    requires Canonical(dir)
    ensures Path(dir) == "/" ==> Text(dir) == ""
    ensures Text([]) == ""
  {
    if dir != [] { LastSlash(dir); }
  }

  lemma ResultCanonical(from: seq<string>, s: string, cap: nat)
    requires '\0' !in s && Canonical(from) && |Text(from)| + 1 <= cap
    ensures var w := Walk(from, Comps(s), cap); w.Some? ==> Canonical(w.value)
  {
    CompsPlain(s);
    WalkCanonical(from, Comps(s), cap);
  }

  /** On every path, from the same directory and with buffers of one size, kernel and shell agree: the kernel succeeds
      exactly when the shell does and a relative path fits its joining buffer, and the results are the same text. */
  method BothResolve(s: string, cwd: string, ghost dir: seq<string>, a: array<char>, b: array<char>)
      returns (k: bool, h: bool, ghost r: string)
    requires '\0' !in s && Canonical(dir) && cwd == Path(dir)
    requires a != b && a.Length == b.Length
    modifies a, b
    ensures h ==> s != "" && Holds(b, r)
    ensures k <==> h && (s[0] == '/' || JoinFits(dir, s))
    ensures k ==> Holds(a, r)
  {
    hide Text, Comps, Walk;
    k := ResolveKernelPath(s, cwd, dir, a);
    h := NormalizeShellPath(s, cwd, dir, b);
    ghost var w := Walk(if s != "" && s[0] == '/' then [] else dir, Comps(s), a.Length);
    r := if w.Some? then Path(w.value) else "";
  }
}
