/** Byte ranges written over a device and the log that undoes them. */
module UndoLog {
  import opened Base

  /** One uninstall_data record: what the range held before it was overwritten. */
  datatype Record = Record(loc: nat, data: Bytes)

  predicate Covers(e: Record, p: nat) { e.loc <= p < e.loc + |e.data| }

  /** The device contents with a record's bytes laid over them, as far as the device reaches. */
  ghost function Patch(v: Bytes, e: Record): (r: Bytes)
    ensures |r| == |v| && forall p :: 0 <= p < |v| ==> r[p] == if Covers(e, p) then e.data[p - e.loc] else v[p]
  {
    seq(|v|, p requires 0 <= p < |v| => if Covers(e, p) then e.data[p - e.loc] else v[p])
  }

  ghost predicate CoveredBy(log: seq<Record>, p: nat) { exists k :: 0 <= k < |log| && Covers(log[k], p) }

  /** For every byte, the earliest record that covers it holds the original value. */
  ghost predicate Faithful(log: seq<Record>, origin: Bytes) {
    forall k, p :: 0 <= k < |log| && 0 <= p < |origin| && Covers(log[k], p) && !CoveredBy(log[..k], p) ==>
      log[k].data[p - log[k].loc] == origin[p]
  }

  /** Bytes no record covers are still original. */
  ghost predicate RestIntact(log: seq<Record>, origin: Bytes, d: Bytes) {
    |d| == |origin| && forall p :: 0 <= p < |d| && !CoveredBy(log, p) ==> d[p] == origin[p]
  }

  /** Logging a write whose saved bytes come from a view that is original outside the log. */
  lemma LogKeepsFaithful(log: seq<Record>, origin: Bytes, view: Bytes, e: Record)
    requires Faithful(log, origin) && RestIntact(log, origin, view)
    requires forall p :: 0 <= p < |view| && Covers(e, p) ==> e.data[p - e.loc] == view[p]
    ensures Faithful(log + [e], origin)
  {
    var l := log + [e];
    forall k, p | 0 <= k < |l| && 0 <= p < |origin| && Covers(l[k], p) && !CoveredBy(l[..k], p)
      ensures l[k].data[p - l[k].loc] == origin[p]
    {
      assert l[..k] == log[..k];
      if k == |log| { assert log[..k] == log; }
    }
  }

  /** Covered positions only grow with the log. */
  lemma CoverGrows(log: seq<Record>, e: Record, p: nat)
    ensures CoveredBy(log + [e], p) <==> CoveredBy(log, p) || Covers(e, p)
  {
    var l := log + [e];
    if CoveredBy(log, p) { var k :| 0 <= k < |log| && Covers(log[k], p); assert Covers(l[k], p); }
    if Covers(e, p) { assert Covers(l[|log|], p); }
    if CoveredBy(l, p) { var k :| 0 <= k < |l| && Covers(l[k], p); assert k < |log| ==> Covers(log[k], p); }
  }

  /** Undoing: the newest record first, the oldest last. */
  ghost function Undo(d: Bytes, log: seq<Record>): (r: Bytes)
    ensures |r| == |d|
  {
    if log == [] then d else Patch(Undo(d, log[1..]), log[0])
  }

  lemma TailCover(log: seq<Record>, k: nat, p: nat)
    requires 0 < k <= |log|
    ensures CoveredBy(log[1..][..k - 1], p) ==> CoveredBy(log[..k], p)
  {
    if CoveredBy(log[1..][..k - 1], p) {
      var j :| 0 <= j < k - 1 && Covers(log[1..][..k - 1][j], p);
      assert log[..k][j + 1] == log[1..][..k - 1][j];
    }
  }

  lemma {:induction false} UndoAt(d: Bytes, log: seq<Record>, p: nat)
    requires p < |d|
    ensures !CoveredBy(log, p) ==> Undo(d, log)[p] == d[p]
    ensures forall k :: 0 <= k < |log| && Covers(log[k], p) && !CoveredBy(log[..k], p) ==>
              Undo(d, log)[p] == log[k].data[p - log[k].loc]
  {
    if log != [] {
      UndoAt(d, log[1..], p);
      if Covers(log[0], p) {
        forall k | 0 < k < |log| ensures CoveredBy(log[..k], p) { assert log[..k][0] == log[0]; }
      } else {
        TailCover(log, |log|, p);
        assert log[..|log|] == log && log[1..][..|log| - 1] == log[1..];
        forall k | 0 <= k < |log| && Covers(log[k], p) && !CoveredBy(log[..k], p)
          ensures Undo(d, log)[p] == log[k].data[p - log[k].loc]
        {
          assert log[1..][k - 1] == log[k];
          TailCover(log, k, p);
        }
      }
    }
  }

  lemma {:induction false} FirstCover(log: seq<Record>, p: nat) returns (k: nat)
    requires CoveredBy(log, p)
    ensures k < |log| && Covers(log[k], p) && !CoveredBy(log[..k], p)
    decreases |log|
  {
    var n := |log| - 1;
    if n >= 0 && CoveredBy(log[..n], p) {
      k := FirstCover(log[..n], p);
      assert log[..n][..k] == log[..k];
    } else {
      k := n;
    }
  }

  /** Undoing restores every byte that some record covers or that was never changed. */
  lemma UndoRestoresAt(origin: Bytes, d: Bytes, log: seq<Record>, p: nat)
    requires Faithful(log, origin) && |d| == |origin| && p < |d| && (CoveredBy(log, p) || d[p] == origin[p])
    ensures Undo(d, log)[p] == origin[p]
  {
    UndoAt(d, log, p);
    if CoveredBy(log, p) { var k := FirstCover(log, p); }
  }

  /** So undoing restores the device, overlapping records included, exactly when no unlogged byte was changed. */
  lemma UndoRestores(origin: Bytes, d: Bytes, log: seq<Record>)
    requires Faithful(log, origin) && |d| == |origin|
    ensures Undo(d, log) == origin <==> RestIntact(log, origin, d)
  {
    forall p | 0 <= p < |d| && !CoveredBy(log, p) ensures Undo(d, log)[p] == d[p] { UndoAt(d, log, p); }
    if RestIntact(log, origin, d) {
      forall p | 0 <= p < |d| ensures Undo(d, log)[p] == origin[p] { UndoRestoresAt(origin, d, log, p); }
    }
  }
}
