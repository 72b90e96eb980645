/**
 * The connect tracepoints: enter stores what it can read of the destination under the
 * thread's id, exit takes it back and emits one record. Threads interleave freely and the
 * map may evict any entry at any time.
 */
module Connect {
  import opened Basics
  import opened Net

  const AF_INET: nat := 2
  const AF_INET6: nat := 10
  const TWO32: nat := 0x1_0000_0000
  const TWO64: nat := 0x1_0000_0000_0000_0000

  type uint64 = n: nat | n < TWO64
  type octet = n: nat | n < 256 // a byte whose bits do not matter
  type Bytes4 = s: seq<byte> | |s| == 4 witness [0, 0, 0, 0]
  type Bytes16 = s: seq<byte> | |s| == 16 witness V6_LOOPBACK
  type Comm = s: seq<octet> | |s| == 16 witness [0, 0, 0, 0, 0, 0, 0, 0, 0, 0, 0, 0, 0, 0, 0, 0]

  // ---------------------------------------------------------------- data

  /** What a connect call passes, as far as the program manages to read it. */
  datatype Sockaddr =
    | Unreadable // neither the family nor, once it is known, the address can be read
    | Inet(port: uint16, addr4: Bytes4)
    | Inet6(port: uint16, addr16: Bytes16)
    | OtherFamily

  datatype Pending = Pending(
    startNs: uint64, dport: uint16, family: uint16, daddr: Bytes16, comm: Comm, pid: nat, tgid: nat)

  datatype Record = Record(
    pid: nat, tgid: nat, dport: uint16, family: uint16, daddr: Bytes16, comm: Comm, connectNs: uint64)

  /**
   * One moment of the machine. tid is pid_tgid; stored says whether the map took the entry,
   * full whether the ring buffer had no room.
   */
  datatype Step =
    | Enter(tid: uint64, now: uint64, sa: Sockaddr, comm: Comm, stored: bool)
    | Exit(tid: uint64, now: uint64, full: bool)
    | Evict(tid: uint64)

  datatype State = State(pending: map<uint64, Pending>, ring: seq<Record>)

  // ---------------------------------------------------------------- the programs

  const ZEROS12: seq<byte> := [0, 0, 0, 0, 0, 0, 0, 0, 0, 0, 0, 0]

  /** The entry trace_connect_enter builds, if it gets that far. */
  function PendingOf(tid: uint64, now: uint64, sa: Sockaddr, comm: Comm): Option<Pending> {
    match sa
    case Unreadable => None
    case Inet(port, a) => Some(Pending(now, port, AF_INET, a + ZEROS12, comm, tid % TWO32, tid / TWO32))
    case Inet6(port, a) => Some(Pending(now, port, AF_INET6, a, comm, tid % TWO32, tid / TWO32))
    case OtherFamily => None
  }

  /** The 64-bit difference of two clock readings. */
  function Elapsed(from: uint64, to: uint64): uint64 {
    (to - from + TWO64) % TWO64
  }

  function RecordOf(p: Pending, now: uint64): Record {
    Record(p.pid, p.tgid, p.dport, p.family, p.daddr, p.comm, Elapsed(p.startNs, now))
  }

  function Apply(st: State, step: Step): State {
    match step
    case Enter(tid, now, sa, comm, stored) =>
      match PendingOf(tid, now, sa, comm) {
        case Some(p) => if stored then st.(pending := st.pending[tid := p]) else st
        case None => st
      }
    case Exit(tid, now, full) =>
      if tid !in st.pending then st
      else
        var p := st.pending[tid];
        State(st.pending - {tid}, if full then st.ring else st.ring + [RecordOf(p, now)])
    case Evict(tid) => st.(pending := st.pending - {tid})
  }

  function Run(steps: seq<Step>): State {
    if steps == [] then State(map[], []) else Apply(Run(steps[..|steps| - 1]), steps[|steps| - 1])
  }

  // ---------------------------------------------------------------- the object

  /** The two programs over their shared map and ring; log is what happened so far. */
  class Tracer {
    var pendingConnects: map<uint64, Pending>
    var events: seq<Record>
    ghost var log: seq<Step>

    ghost predicate Valid()
      reads this
    {
      State(pendingConnects, events) == Run(log)
    }

    constructor ()
      ensures Valid() && log == []
    {
      pendingConnects, events, log := map[], [], [];
    }

    method TraceConnectEnter(tid: uint64, now: uint64, sa: Sockaddr, comm: Comm, stored: bool)
      requires Valid()
      modifies this
      ensures Valid() && log == old(log) + [Enter(tid, now, sa, comm, stored)]
    {
      RunAppend(log, Enter(tid, now, sa, comm, stored));
      log := log + [Enter(tid, now, sa, comm, stored)];
      var p := PendingOf(tid, now, sa, comm);
      if p.None? {
        return;
      }
      if stored {
        pendingConnects := pendingConnects[tid := p.value];
      }
    }

    method TraceConnectExit(tid: uint64, now: uint64, full: bool)
      requires Valid()
      modifies this
      ensures Valid() && log == old(log) + [Exit(tid, now, full)]
    {
      RunAppend(log, Exit(tid, now, full));
      log := log + [Exit(tid, now, full)];
      if tid !in pendingConnects {
        return;
      }
      var p := pendingConnects[tid];
      pendingConnects := pendingConnects - {tid};
      if full {
        return;
      }
      events := events + [RecordOf(p, now)];
    }

    method EvictEntry(tid: uint64)
      requires Valid()
      modifies this
      ensures Valid() && log == old(log) + [Evict(tid)]
    {
      RunAppend(log, Evict(tid));
      log := log + [Evict(tid)];
      pendingConnects := pendingConnects - {tid};
    }
  }

  lemma RunAppend(steps: seq<Step>, step: Step)
    ensures Run(steps + [step]) == Apply(Run(steps), step)
  {
    assert (steps + [step])[..|steps|] == steps;
  }

  // ---------------------------------------------------------------- pairing

  /** An enter that leaves an entry. */
  predicate Records(step: Step) {
    step.Enter? && step.stored && PendingOf(step.tid, step.now, step.sa, step.comm).Some?
  }

  /** A step that makes or removes an entry of the thread. */
  predicate Touches(step: Step, tid: uint64) {
    step.tid == tid && (Records(step) || step.Exit? || step.Evict?)
  }

  /** The enter whose entry the thread has now, if any. */
  ghost predicate IsLive(steps: seq<Step>, tid: uint64, i: nat) {
    && i < |steps| && Records(steps[i]) && steps[i].tid == tid
    && forall k :: i < k < |steps| ==> !Touches(steps[k], tid)
  }

  /** Exactly the IPv4 and IPv6 destinations that could be read leave an entry, if the map takes it. */
  lemma RecordsExactly(step: Step)
    ensures Records(step) <==> step.Enter? && step.stored && (step.sa.Inet? || step.sa.Inet6?)
  {
  }

  function EntryAt(steps: seq<Step>, i: nat): Pending
    requires i < |steps| && Records(steps[i])
  {
    PendingOf(steps[i].tid, steps[i].now, steps[i].sa, steps[i].comm).value
  }

  lemma LiveStep(steps: seq<Step>, last: Step, tid: uint64, i: nat)
    ensures IsLive(steps + [last], tid, i) <==>
              if Touches(last, tid) then Records(last) && i == |steps| else IsLive(steps, tid, i)
  {
    var all := steps + [last];
    assert all[|steps|] == last;
    assert forall k :: 0 <= k < |steps| ==> all[k] == steps[k];
  }

  /** The map holds exactly the live entries, each with what its enter read. */
  lemma {:induction false} PendingExactly(steps: seq<Step>, tid: uint64)
    ensures var m := Run(steps).pending;
            && (tid in m <==> exists i: nat :: IsLive(steps, tid, i))
            && (forall i: nat :: IsLive(steps, tid, i) ==> m[tid] == EntryAt(steps, i))
  {
    if steps != [] {
      var k := |steps| - 1;
      var front, last := steps[..k], steps[k];
      assert steps == front + [last];
      PendingExactly(front, tid);
      forall i: nat ensures IsLive(steps, tid, i) <==>
                 if Touches(last, tid) then Records(last) && i == k else IsLive(front, tid, i)
      {
        LiveStep(front, last, tid, i);
      }
      if Records(last) && last.tid == tid {
        assert IsLive(steps, tid, k);
      } else if tid in Run(front).pending && !Touches(last, tid) {
        var i: nat :| IsLive(front, tid, i);
        assert IsLive(steps, tid, i);
      }
    }
  }

  /** Enter i and exit j belong to one emitted record. */
  ghost predicate Emits(steps: seq<Step>, i: nat, j: nat) {
    && i < j < |steps| && steps[j].Exit? && !steps[j].full
    && IsLive(steps[..j], steps[j].tid, i)
  }

  /** The record r is that of enter i and exit j. */
  ghost predicate Emitted(steps: seq<Step>, i: nat, j: nat, r: Record) {
    Emits(steps, i, j) && Records(steps[i]) && r == RecordOf(EntryAt(steps, i), steps[j].now)
  }

  /** The ring, with the enter and the exit of each record. */
  ghost predicate Explains(steps: seq<Step>, ring: seq<Record>, pairs: seq<(nat, nat)>) {
    && |pairs| == |ring|
    && (forall n :: 0 <= n < |pairs| ==> Emitted(steps, pairs[n].0, pairs[n].1, ring[n]))
    && (forall a, b :: 0 <= a < b < |pairs| ==> pairs[a].1 < pairs[b].1 && pairs[a].0 != pairs[b].0)
    && (forall i: nat, j: nat :: Emits(steps, i, j) ==> (i, j) in pairs)
  }

  lemma EmitsPrefix(steps: seq<Step>, last: Step, i: nat, j: nat)
    requires j < |steps|
    ensures Emits(steps + [last], i, j) <==> Emits(steps, i, j)
  {
    var all := steps + [last];
    assert all[j] == steps[j];
    assert all[..j] == steps[..j];
  }

  lemma EmitsLast(steps: seq<Step>, last: Step, i: nat)
    ensures Emits(steps + [last], i, |steps|) <==> last.Exit? && !last.full && IsLive(steps, last.tid, i)
  {
    assert (steps + [last])[..|steps|] == steps;
  }

  /** An enter is the live one of at most one exit: the exit takes its entry away. */
  lemma EnterUsedOnce(steps: seq<Step>, i: nat, j: nat, k: nat)
    requires Emits(steps, i, j) && Emits(steps, i, k)
    ensures j == k
  {
    if j < k {
      assert steps[..k][i] == steps[i] == steps[..j][i];
      assert Touches(steps[..k][j], steps[k].tid);
    } else if k < j {
      assert steps[..k][i] == steps[i] == steps[..j][i];
      assert Touches(steps[..j][k], steps[j].tid);
    }
  }

  lemma LiveUnique(steps: seq<Step>, tid: uint64, i: nat, k: nat)
    requires IsLive(steps, tid, i) && IsLive(steps, tid, k)
    ensures i == k
  {
    assert Touches(steps[i], tid) && Touches(steps[k], tid);
  }

  lemma ExplainsSame(front: seq<Step>, last: Step, ring: seq<Record>, pairs: seq<(nat, nat)>)
    requires Explains(front, ring, pairs)
    requires forall i: nat :: !Emits(front + [last], i, |front|)
    ensures Explains(front + [last], ring, pairs)
  {
    var steps := front + [last];
    forall i: nat, j: nat ensures Emits(steps, i, j) <==> Emits(front, i, j) {
      if j < |front| {
        EmitsPrefix(front, last, i, j);
      }
    }
    forall n | 0 <= n < |pairs| ensures Emitted(steps, pairs[n].0, pairs[n].1, ring[n]) {
      assert Emitted(front, pairs[n].0, pairs[n].1, ring[n]);
      assert steps[pairs[n].0] == front[pairs[n].0] && steps[pairs[n].1] == front[pairs[n].1];
    }
  }

  lemma ExplainsMore(front: seq<Step>, last: Step, ring: seq<Record>, pairs: seq<(nat, nat)>, i: nat)
    requires Explains(front, ring, pairs)
    requires last.Exit? && !last.full && IsLive(front, last.tid, i)
    ensures Explains(front + [last], ring + [RecordOf(EntryAt(front, i), last.now)], pairs + [(i, |front|)])
  {
    var steps, k := front + [last], |front|;
    var more := pairs + [(i, k)];
    var r := RecordOf(EntryAt(front, i), last.now);
    EmitsLast(front, last, i);
    assert steps[i] == front[i] && steps[k] == last;
    assert Emitted(steps, i, k, r);
    forall n | 0 <= n < |pairs|
      ensures Emitted(steps, pairs[n].0, pairs[n].1, ring[n]) && pairs[n].0 != i && pairs[n].1 < k
    {
      var (a, b) := pairs[n];
      assert Emitted(front, a, b, ring[n]);
      EmitsPrefix(front, last, a, b);
      assert steps[a] == front[a] && steps[b] == front[b];
      if a == i {
        EnterUsedOnce(steps, i, b, k);
      }
    }
    forall a: nat, b: nat | Emits(steps, a, b) ensures (a, b) in more {
      if b < k {
        EmitsPrefix(front, last, a, b);
        assert (a, b) in pairs;
      } else {
        EmitsLast(front, last, a);
        LiveUnique(front, last.tid, a, i);
        assert more[|pairs|] == (i, k);
      }
    }
  }

  /**
   * Pairing under any interleaving: the records in the ring are exactly the emitted pairs, in
   * the order of their exits, each with the data of its own enter and no enter used twice.
   */
  lemma {:induction false} RingExactly(steps: seq<Step>) returns (pairs: seq<(nat, nat)>)
    ensures Explains(steps, Run(steps).ring, pairs)
  {
    if steps == [] {
      pairs := [];
    } else {
      var k := |steps| - 1;
      var front, last := steps[..k], steps[k];
      assert steps == front + [last];
      pairs := RingExactly(front);
      PendingExactly(front, last.tid);
      if last.Exit? && !last.full && last.tid in Run(front).pending {
        var i: nat :| IsLive(front, last.tid, i);
        ExplainsMore(front, last, Run(front).ring, pairs, i);
        pairs := pairs + [(i, k)];
      } else {
        forall i: nat ensures !Emits(steps, i, k) {
          EmitsLast(front, last, i);
        }
        ExplainsSame(front, last, Run(front).ring, pairs);
      }
    }
  }

  // ---------------------------------------------------------------- alternating threads

  /** The thread's last enter or exit is an enter. */
  predicate Inside(steps: seq<Step>, tid: uint64) {
    if steps == [] then false
    else
      var last := steps[|steps| - 1];
      if last.tid == tid && !last.Evict? then last.Enter? else Inside(steps[..|steps| - 1], tid)
  }

  /** No thread enters connect twice without leaving it, or leaves it twice. */
  ghost predicate Alternates(steps: seq<Step>) {
    forall j :: 0 <= j < |steps| && !steps[j].Evict? ==> (steps[j].Enter? <==> !Inside(steps[..j], steps[j].tid))
  }

  /** Enter i and exit j are the two ends of one connect call. */
  ghost predicate SameCall(steps: seq<Step>, i: nat, j: nat) {
    && i < j < |steps| && steps[i].Enter? && steps[j].Exit? && steps[i].tid == steps[j].tid
    && forall k :: i < k < j ==> steps[k].tid != steps[i].tid || steps[k].Evict?
  }

  /** Inside is decided by the last enter or exit of the thread. */
  lemma {:induction false} InsideSince(steps: seq<Step>, i: nat, tid: uint64)
    requires i < |steps| && steps[i].tid == tid && !steps[i].Evict?
    requires forall k :: i < k < |steps| ==> steps[k].tid != tid || steps[k].Evict?
    ensures Inside(steps, tid) <==> steps[i].Enter?
  {
    if i < |steps| - 1 {
      assert steps[..|steps| - 1][i] == steps[i];
      InsideSince(steps[..|steps| - 1], i, tid);
    }
  }

  /** In an alternating run nothing of the thread but evictions comes between. */
  lemma LiveIsLastCall(steps: seq<Step>, tid: uint64, i: nat, k: nat)
    requires Alternates(steps) && IsLive(steps, tid, i)
    requires i < k < |steps|
    ensures steps[k].tid != tid
    decreases k
  {
    if steps[k].tid == tid {
      assert !Touches(steps[k], tid);
      forall m | i < m < k ensures steps[..k][m].tid != tid || steps[..k][m].Evict? {
        LiveIsLastCall(steps, tid, i, m);
      }
      assert steps[..k][i] == steps[i];
      InsideSince(steps[..k], i, tid);
      assert false;
    }
  }

  lemma AlternatesPrefix(steps: seq<Step>, j: nat)
    requires Alternates(steps) && j <= |steps|
    ensures Alternates(steps[..j])
  {
    forall k | 0 <= k < j ensures steps[..j][k] == steps[k] && steps[..j][..k] == steps[..k] {}
  }

  /** A pending entry exists only for a thread that is inside a connect call. */
  lemma PendingIsInside(steps: seq<Step>, tid: uint64)
    requires Alternates(steps) && tid in Run(steps).pending
    ensures Inside(steps, tid)
  {
    PendingExactly(steps, tid);
    var i: nat :| IsLive(steps, tid, i);
    forall k | i < k < |steps| ensures steps[k].tid != tid {
      LiveIsLastCall(steps, tid, i, k);
    }
    InsideSince(steps, i, tid);
  }

  // ---------------------------------------------------------------- any threads

  /**
   * An enter that returns early, or whose entry the map does not take, while an earlier entry
   * of its thread is still there; and a later exit that emits that earlier entry.
   */
  ghost predicate Stale(steps: seq<Step>, k: nat, j: nat) {
    && k < j < |steps|
    && steps[k].Enter? && !Records(steps[k]) && steps[k].tid in Run(steps[..k]).pending
    && steps[j].Exit? && steps[j].tid == steps[k].tid && !steps[j].full
    && forall m :: k < m < j ==> !Touches(steps[m], steps[j].tid)
  }

  /** A stale entry is emitted for the enter that left it, across the enter that did not. */
  lemma StaleIsMispaired(steps: seq<Step>, k: nat, j: nat) returns (i: nat)
    requires Stale(steps, k, j)
    ensures Emits(steps, i, j) && !SameCall(steps, i, j)
  {
    var tid := steps[k].tid;
    PendingExactly(steps[..k], tid);
    i :| IsLive(steps[..k], tid, i);
    assert steps[..k][i] == steps[i] == steps[..j][i];
    forall m | i < m < j ensures !Touches(steps[..j][m], tid) {
      assert steps[..j][m] == steps[m];
      if m < k {
        assert steps[..k][m] == steps[m];
      }
    }
    assert IsLive(steps[..j], tid, i);
  }

  lemma MispairedIsStale(steps: seq<Step>, i: nat, j: nat) returns (k: nat)
    requires Emits(steps, i, j) && !SameCall(steps, i, j)
    ensures Stale(steps, k, j)
  {
    var tid, upTo := steps[j].tid, steps[..j];
    assert upTo[i] == steps[i];
    k :| i < k < j && steps[k].tid == tid && !steps[k].Evict?;
    assert forall m :: i < m < j ==> upTo[m] == steps[m];
    assert !Touches(upTo[k], tid);
    assert steps[..k][i] == steps[i];
    forall m | i < m < k ensures !Touches(steps[..k][m], tid) {
      assert steps[..k][m] == upTo[m];
    }
    assert IsLive(steps[..k], tid, i);
    PendingExactly(steps[..k], tid);
  }

  /**
   * Whatever the threads do: every record belongs to the call whose exit emitted it exactly when
   * no entry goes stale. Alternation is enough for that but not needed.
   */
  lemma PairedExactly(steps: seq<Step>)
    ensures (forall i: nat, j: nat :: Emits(steps, i, j) ==> SameCall(steps, i, j))
       <==> !exists k: nat, j: nat :: Stale(steps, k, j)
  {
    if k: nat, j: nat :| Stale(steps, k, j) {
      var i := StaleIsMispaired(steps, k, j);
    }
    if i: nat, j: nat :| Emits(steps, i, j) && !SameCall(steps, i, j) {
      var k := MispairedIsStale(steps, i, j);
    }
  }

  /** Threads that alternate leave nothing to go stale. */
  lemma AlternatingIsNeverStale(steps: seq<Step>, k: nat, j: nat)
    requires Alternates(steps)
    ensures !Stale(steps, k, j)
  {
    if Stale(steps, k, j) {
      AlternatesPrefix(steps, k);
      PendingIsInside(steps[..k], steps[k].tid);
    }
  }

  /**
   * For the two ends of one call, in any run: a record is emitted exactly when an IPv4 or IPv6
   * destination was read and stored, the entry was not evicted meanwhile, and the exit found room.
   */
  lemma CallEmittedExactly(steps: seq<Step>, i: nat, j: nat)
    requires SameCall(steps, i, j)
    ensures Emits(steps, i, j) <==> (
              && steps[i].stored && (steps[i].sa.Inet? || steps[i].sa.Inet6?) && !steps[j].full
              && forall k :: i < k < j ==> steps[k].tid != steps[j].tid)
  {
    RecordsExactly(steps[i]);
    var upTo := steps[..j];
    assert upTo[i] == steps[i];
    if Emits(steps, i, j) {
      forall k | i < k < j ensures steps[k].tid != steps[j].tid {
        assert upTo[k] == steps[k];
        assert !Touches(upTo[k], steps[j].tid);
      }
    }
    if Records(steps[i]) && !steps[j].full && forall k :: i < k < j ==> steps[k].tid != steps[j].tid {
      forall k | i < k < j ensures !Touches(upTo[k], steps[j].tid) {
        assert upTo[k] == steps[k];
      }
    }
  }

  /**
   * Where no entry goes stale, a record is emitted for exactly those calls whose IPv4 or IPv6
   * destination was read and stored, whose entry was not evicted meanwhile, and whose exit found room.
   */
  lemma EmittedCallsExactly(steps: seq<Step>, i: nat, j: nat)
    requires !exists k: nat, m: nat :: Stale(steps, k, m)
    ensures Emits(steps, i, j) <==> (
              && SameCall(steps, i, j) && steps[i].stored && (steps[i].sa.Inet? || steps[i].sa.Inet6?)
              && !steps[j].full && forall k :: i < k < j ==> steps[k].tid != steps[j].tid)
  {
    PairedExactly(steps);
    if SameCall(steps, i, j) {
      CallEmittedExactly(steps, i, j);
    }
  }

  /**
   * A thread whose connect was interrupted before its exit leaves its entry, and the exit of a
   * later call that stored nothing emits it.
   */
  lemma StaleEntryExample(a: Bytes4, comm: Comm)
    ensures var steps :=
              [Enter(7, 1, Inet(443, a), comm, true), Enter(7, 2, OtherFamily, comm, true), Exit(7, 3, false)];
            Stale(steps, 1, 2) && Emits(steps, 0, 2) && SameCall(steps, 1, 2) && !SameCall(steps, 0, 2)
  {
    var steps := [Enter(7, 1, Inet(443, a), comm, true), Enter(7, 2, OtherFamily, comm, true), Exit(7, 3, false)];
    assert steps[..1] == [steps[0]];
    assert steps[..2][1] == steps[1] && steps[..2][0] == steps[0];
    assert !Touches(steps[1], 7);
    assert IsLive(steps[..1], 7, 0);
    PendingExactly(steps[..1], 7);
  }

  /** Two enters and one exit do not alternate, and the record is still that of its own call. */
  lemma RetriedEnterExample(a: Bytes4, comm: Comm)
    ensures var steps :=
              [Enter(7, 1, Inet(443, a), comm, true), Enter(7, 2, Inet(80, a), comm, true), Exit(7, 3, false)];
            !Alternates(steps) && Emits(steps, 1, 2) && forall k: nat, j: nat :: !Stale(steps, k, j)
  {
    var steps := [Enter(7, 1, Inet(443, a), comm, true), Enter(7, 2, Inet(80, a), comm, true), Exit(7, 3, false)];
    assert steps[..1] == [steps[0]];
    assert Inside(steps[..1], 7);
    assert steps[..2][1] == steps[1];
  }
}
