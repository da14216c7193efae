/** kxe.c: the stack a new program starts with. The 16 stack pages are one array; address TOP is its end. */
module InitialStack {
  import opened Base
  import opened ByteFields

  const TOP := 0x80_0000
  const BASE := 0x7F_0000
  const SIZE := 0x1_0000
  const MAX_ARGC := 32
  const ARG_MAX := 128
  const MAX_ENVC := 8

  /** A C string at an address. */
  ghost predicate StringAt(m: Bytes, p: nat, s: Bytes) {
    |m| == SIZE && BASE <= p && p + |s| + 1 <= TOP && m[p - BASE..p - BASE + |s| + 1] == s + [0]
  }

  /** A 64-bit word at an address. */
  ghost predicate WordAt(m: Bytes, a: nat, v: nat) {
    |m| == SIZE && BASE <= a && a + 8 <= TOP && FromLE(m[a - BASE..a - BASE + 8]) == v
  }

  /** Nothing at or above an address differs. */
  ghost predicate SameAbove(m: Bytes, n: Bytes, sp: nat) {
    |m| == |n| == SIZE && BASE <= sp <= TOP && m[sp - BASE..] == n[sp - BASE..]
  }

  lemma SliceAbove(m: Bytes, n: Bytes, sp: nat, a: nat, b: nat)
    requires SameAbove(m, n, sp) && sp <= a <= b <= TOP
    ensures m[a - BASE..b - BASE] == n[a - BASE..b - BASE]
  {
  }

  lemma WordStays(m: Bytes, n: Bytes, sp: nat, a: nat, v: nat)
    requires WordAt(m, a, v) && SameAbove(m, n, sp) && sp <= a
    ensures WordAt(n, a, v)
  {
    SliceAbove(m, n, sp, a, a + 8);
  }

  lemma SameAboveTrans(m: Bytes, n: Bytes, o: Bytes, hi: nat, lo: nat)
    requires SameAbove(m, n, hi) && SameAbove(n, o, lo) && lo <= hi
    ensures SameAbove(m, o, hi)
  {
  }

  /** A string that is there and short enough. */
  predicate Fits(s: Option<Bytes>) { s.Some? && |s.value| < ARG_MAX }

  /** Pointers to strings, none below an address. */
  ghost predicate Strings(m: Bytes, sp: nat, ptrs: seq<nat>, strs: seq<Option<Bytes>>) {
    |ptrs| == |strs| && forall k :: 0 <= k < |ptrs| ==>
      strs[k].Some? && sp <= ptrs[k] && StringAt(m, ptrs[k], strs[k].value)
  }

  lemma StringsStay(m: Bytes, n: Bytes, sp: nat, lo: nat, ptrs: seq<nat>, strs: seq<Option<Bytes>>)
    requires Strings(m, sp, ptrs, strs) && SameAbove(m, n, sp) && lo <= sp
    ensures Strings(n, lo, ptrs, strs)
  {
  }

  lemma PointersFit(m: Bytes, sp: nat, ptrs: seq<nat>, strs: seq<Option<Bytes>>)
    requires Strings(m, sp, ptrs, strs)
    ensures |ptrs| == |strs| && forall k :: 0 <= k < |ptrs| ==> ptrs[k] < WORD
  {
  }

  /** A word that points to a string. */
  ghost predicate PointsTo(m: Bytes, a: nat, s: Bytes) { exists p: nat :: WordAt(m, a, p) && StringAt(m, p, s) }

  /** What a program reads from rsp: argc, the argument pointers, NULL, the environment pointers, NULL. */
  ghost predicate Decodes(m: Bytes, rsp: nat, args: seq<Option<Bytes>>, env: seq<Option<Bytes>>) {
    WordAt(m, rsp, |args|)
    && (forall i: nat :: i < |args| ==> args[i].Some? && PointsTo(m, rsp + 8 + 8 * i, args[i].value))
    && WordAt(m, rsp + 8 + 8 * |args|, 0)
    && (forall i: nat :: i < |env| ==> env[i].Some? && PointsTo(m, rsp + 16 + 8 * |args| + 8 * i, env[i].value))
    && WordAt(m, rsp + 16 + 8 * |args| + 8 * |env|, 0)
  }

  /** The vector of words that the pointers make. */
  ghost predicate Vector(m: Bytes, rsp: nat, args: seq<nat>, env: seq<nat>) {
    WordAt(m, rsp, |args|)
    && (forall i: nat :: i < |args| ==> WordAt(m, rsp + 8 + 8 * i, args[i]))
    && WordAt(m, rsp + 8 + 8 * |args|, 0)
    && (forall i: nat :: i < |env| ==> WordAt(m, rsp + 16 + 8 * |args| + 8 * i, env[i]))
    && WordAt(m, rsp + 16 + 8 * |args| + 8 * |env|, 0)
  }

  lemma DecodesFrom(m: Bytes, rsp: nat, sp: nat, args: seq<Option<Bytes>>, argPtrs: seq<nat>, env: seq<Option<Bytes>>,
      envPtrs: seq<nat>)
    requires Vector(m, rsp, argPtrs, envPtrs) && Strings(m, sp, argPtrs, args) && Strings(m, sp, envPtrs, env)
    ensures Decodes(m, rsp, args, env)
  {
  }

  lemma SameAboveUp(m: Bytes, n: Bytes, lo: nat, hi: nat)
    requires SameAbove(m, n, lo) && lo <= hi <= TOP
    ensures SameAbove(m, n, hi)
  {
  }

  class UserStack {
    const mem: array<Byte>

    constructor ()
      ensures mem.Length == SIZE && fresh(mem)
    {
      mem := new Byte[65536](i => 0);
    }

    /** write_user_bytes: page by page. */
    method WriteUserBytes(va: nat, src: Bytes)
      requires mem.Length == SIZE && BASE <= va && va + |src| <= TOP
      modifies mem
      ensures mem[va - BASE..va - BASE + |src|] == src && SameAbove(old(mem[..]), mem[..], va + |src|)
    {
      ghost var m0 := mem[..];
      var done := 0;
      while done < |src|
        invariant done <= |src| && forall i :: 0 <= i < done ==> mem[va - BASE + i] == src[i]
        invariant forall j :: va - BASE + |src| <= j < SIZE ==> mem[j] == m0[j]
      {
        var off := (va + done) % 4096;
        var chunk := 4096 - off;
        if chunk > |src| - done {
          chunk := |src| - done;
        }
        forall i | 0 <= i < chunk {
          mem[va - BASE + done + i] := src[done + i];
        }
        assert forall i :: done <= i < done + chunk ==> mem[va - BASE + i] == src[i] by {
          forall i | done <= i < done + chunk ensures mem[va - BASE + i] == src[i] {
            assert mem[va - BASE + done + (i - done)] == src[done + (i - done)];
          }
        }
        done := done + chunk;
      }
    }

    /** push_user_u64. */
    method PushWord(sp: nat, v: nat) returns (r: nat)
      requires mem.Length == SIZE && BASE + 8 <= sp <= TOP && v < WORD
      modifies mem
      ensures r == sp - 8 && WordAt(mem[..], r, v) && SameAbove(old(mem[..]), mem[..], sp)
    {
      hide LE, FromLE, Pow;
      Widths();
      r := sp - 8;
      FromLEOfLE(v, 8);
      WriteUserBytes(r, LE(v, 8));
      assert mem[..][r - BASE..r - BASE + 8] == mem[r - BASE..r - BASE + 8];
    }

    /** Pointers pushed last to first, so that they stand in order. */
    method PushWords(sp: nat, vals: seq<nat>) returns (r: nat)
      requires mem.Length == SIZE && sp <= TOP && sp >= BASE + 8 * |vals|
               && forall i :: 0 <= i < |vals| ==> vals[i] < WORD
      modifies mem
      ensures r == sp - 8 * |vals| && SameAbove(old(mem[..]), mem[..], sp)
      ensures forall i: nat :: i < |vals| ==> WordAt(mem[..], r + 8 * i, vals[i])
    {
      hide FromLE;
      r := sp;
      var i := |vals|;
      while i > 0
        invariant 0 <= i <= |vals| && r == sp - 8 * (|vals| - i) && SameAbove(old(mem[..]), mem[..], sp)
        invariant forall k: nat :: i <= k < |vals| ==> WordAt(mem[..], sp - 8 * (|vals| - k), vals[k])
      {
        ghost var m, hi := mem[..], r;
        r := PushWord(r, vals[i - 1]);
        SameAboveTrans(old(mem[..]), m, mem[..], sp, hi);
        forall k: nat | i <= k < |vals| ensures WordAt(mem[..], sp - 8 * (|vals| - k), vals[k]) {
          WordStays(m, mem[..], hi, sp - 8 * (|vals| - k), vals[k]);
        }
        i := i - 1;
      }
    }

    method PushString(sp: nat, str: Bytes) returns (r: nat)
      requires mem.Length == SIZE && BASE + |str| + 1 <= sp <= TOP
      modifies mem
      ensures r == sp - (|str| + 1) && StringAt(mem[..], r, str) && SameAbove(old(mem[..]), mem[..], sp)
    {
      r := sp - (|str| + 1);
      WriteUserBytes(r, str + [0]);
      assert mem[..][r - BASE..sp - BASE] == mem[r - BASE..sp - BASE];
    }

    static lemma NoStrings(m: Bytes, sp: nat)
      requires |m| == SIZE && BASE <= sp <= TOP
      ensures Strings(m, sp, [], []) && SameAbove(m, m, sp)
    {
    }

    /** The loops that copy strings, last to first. A missing or overlong one stops them. */
    method PushStrings(sp: nat, strs: seq<Option<Bytes>>) returns (ok: bool, r: nat, ptrs: seq<nat>)
      requires mem.Length == SIZE && sp <= TOP && sp >= BASE + ARG_MAX * |strs|
      modifies mem
      ensures SameAbove(old(mem[..]), mem[..], sp)
      ensures ok <==> forall i :: 0 <= i < |strs| ==> Fits(strs[i])
      ensures ok ==> |ptrs| == |strs| && sp - ARG_MAX * |strs| <= r <= sp && Strings(mem[..], r, ptrs, strs)
    {
      hide StringAt, SameAbove, Strings;
      r, ptrs := sp, [];
      NoStrings(mem[..], sp);
      assert strs[|strs|..] == [];
      var i := |strs|;
      while i > 0
        invariant 0 <= i <= |strs| && |ptrs| == |strs| - i && sp - 128 * (|strs| - i) <= r <= sp
        invariant SameAbove(old(mem[..]), mem[..], sp)
        invariant forall k :: i <= k < |strs| ==> Fits(strs[k])
        invariant Strings(mem[..], r, ptrs, strs[i..])
      {
        if strs[i - 1].None? {
          return false, r, [];
        }
        var str := strs[i - 1].value;
        if |str| + 1 > ARG_MAX {
          return false, r, [];
        }
        ghost var m, hi, rest := mem[..], r, strs[i..];
        r := PushString(r, str);
        SameAboveTrans(old(mem[..]), m, mem[..], sp, hi);
        StringsGrow(m, mem[..], hi, r, ptrs, rest, str);
        ptrs := [r] + ptrs;
        assert strs[i - 1..] == [strs[i - 1]] + rest;
        i := i - 1;
      }
      assert strs[0..] == strs;
      ok := true;
    }

    static lemma StringsGrow(m: Bytes, n: Bytes, hi: nat, lo: nat, ptrs: seq<nat>, strs: seq<Option<Bytes>>, str: Bytes)
      requires Strings(m, hi, ptrs, strs) && SameAbove(m, n, hi) && lo <= hi && StringAt(n, lo, str)
      ensures Strings(n, lo, [lo] + ptrs, [Some(str)] + strs)
    {
    }

    /** The words of the start vector, pushed from its end. */
    method PushVector(sp: nat, envPtrs: seq<nat>, argPtrs: seq<nat>) returns (rsp: nat)
      requires mem.Length == SIZE && sp <= TOP && sp % 8 == 0 && |envPtrs| <= MAX_ENVC && |argPtrs| <= MAX_ARGC
      requires sp >= BASE + 8 * (|envPtrs| + |argPtrs| + 3)
      requires (forall i :: 0 <= i < |envPtrs| ==> envPtrs[i] < WORD)
               && forall i :: 0 <= i < |argPtrs| ==> argPtrs[i] < WORD
      modifies mem
      ensures BASE <= rsp <= sp && rsp % 8 == 0 && SameAbove(old(mem[..]), mem[..], sp)
              && Vector(mem[..], rsp, argPtrs, envPtrs)
    {
      hide FromLE, WordAt, SameAbove;
      var e, a := 8 * |envPtrs|, 8 * |argPtrs|;
      ghost var m0 := mem[..];
      rsp := PushWord(sp, 0);
      ghost var m1, s1 := mem[..], rsp;
      rsp := PushWords(rsp, envPtrs);
      ghost var m2, s2 := mem[..], rsp;
      rsp := PushWord(rsp, 0);
      ghost var m3, s3 := mem[..], rsp;
      rsp := PushWords(rsp, argPtrs);
      ghost var m4, s4 := mem[..], rsp;
      rsp := PushWord(rsp, |argPtrs|);
      ghost var m5 := mem[..];
      SameAboveTrans(m3, m4, m5, s3, s4);
      SameAboveTrans(m2, m3, m5, s2, s3);
      SameAboveTrans(m1, m2, m5, s1, s2);
      SameAboveTrans(m0, m1, m5, sp, s1);
      WordStays(m1, m5, s1, s1, 0);
      WordStays(m3, m5, s3, s3, 0);
      forall i: nat | i < |envPtrs| ensures WordAt(m5, s2 + 8 * i, envPtrs[i]) {
        WordStays(m2, m5, s2, s2 + 8 * i, envPtrs[i]);
      }
      forall i: nat | i < |argPtrs| ensures WordAt(m5, s4 + 8 * i, argPtrs[i]) {
        WordStays(m4, m5, s4, s4 + 8 * i, argPtrs[i]);
      }
    }

    /** kxe_setup_initial_stack. */
    method SetupInitialStack(args: seq<Option<Bytes>>, env: seq<Option<Bytes>>) returns (ok: bool, rsp: nat)
      requires mem.Length == SIZE && |env| <= MAX_ENVC && forall i :: 0 <= i < |env| ==> Fits(env[i])
      modifies mem
      ensures ok <==> |args| <= MAX_ARGC && forall i :: 0 <= i < |args| ==> Fits(args[i])
      ensures ok ==> BASE <= rsp <= TOP && rsp % 8 == 0 && Decodes(mem[..], rsp, args, env)
    {
      hide Strings, FromLE, WordAt, SameAbove;
      rsp := TOP;
      if |args| > MAX_ARGC {
        return false, rsp;
      }
      var sp, envPtrs, argPtrs;
      ok, sp, envPtrs := PushStrings(TOP, env);
      ghost var m1, sp1 := mem[..], sp;
      ok, sp, argPtrs := PushStrings(sp, args);
      if !ok {
        return;
      }
      ghost var m2, sp2 := mem[..], sp;
      StringsStay(m1, m2, sp1, sp2, envPtrs, env);
      PointersFit(m2, sp2, envPtrs, env);
      PointersFit(m2, sp2, argPtrs, args);
      sp := sp / 8 * 8;
      rsp := PushVector(sp, envPtrs, argPtrs);
      SameAboveUp(m2, mem[..], sp, sp2);
      StringsStay(m2, mem[..], sp2, sp2, envPtrs, env);
      StringsStay(m2, mem[..], sp2, sp2, argPtrs, args);
      DecodesFrom(mem[..], rsp, sp2, args, argPtrs, env, envPtrs);
    }
  }
}
