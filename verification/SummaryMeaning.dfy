/**
 * What a rendered summary says, in the words of the events alone: the rows, their order, and
 * the allowlist candidates.
 */
module SummaryMeaning {
  import opened Net
  import opened Verdict
  import opened LogLine
  import opened Sorting
  import opened Ordering
  import opened Summary

  // ---------------------------------------------------------------- the order of texts

  /** At the first place where they differ, a has the lower character or has ended. */
  ghost predicate Precedes(a: string, b: string) {
    exists k :: FirstDifference(a, b, k)
  }

  predicate FirstDifference(a: string, b: string, k: nat) {
    && k <= |a| && k < |b| && a[..k] == b[..k]
    && (k == |a| || a[k] < b[k])
  }

  lemma {:induction false} LessPrecedes(a: string, b: string) returns (k: nat)
    requires StrLess(a, b)
    ensures FirstDifference(a, b, k)
  {
    if a == "" || a[0] < b[0] {
      k := 0;
    } else {
      k := LessPrecedes(a[1..], b[1..]);
      assert a == [a[0]] + a[1..] && b == [b[0]] + b[1..];
      assert a[..k + 1] == [a[0]] + a[1..][..k] && b[..k + 1] == [b[0]] + b[1..][..k];
      k := k + 1;
    }
  }

  lemma {:induction false} PrecedesLess(a: string, b: string, k: nat)
    requires FirstDifference(a, b, k)
    ensures StrLess(a, b)
  {
    if k > 0 {
      assert a[0] == a[..k][0] == b[..k][0] == b[0];
      assert a[1..][..k - 1] == a[..k][1..] && b[1..][..k - 1] == b[..k][1..];
      PrecedesLess(a[1..], b[1..], k - 1);
    }
  }

  lemma LessExactly(a: string, b: string)
    ensures StrLess(a, b) <==> Precedes(a, b)
  {
    if StrLess(a, b) {
      var k := LessPrecedes(a, b);
    }
    if k: nat :| FirstDifference(a, b, k) {
      PrecedesLess(a, b, k);
    }
  }

  // ---------------------------------------------------------------- the order of the rows

  /** Denied, allowed, exempt, unknown. */
  function Group(v: string): nat {
    if "DENY" <= v then 0 else if v == "ALLOW" then 1 else if "SKIP" <= v then 2 else 3
  }

  /**
   * Row a may stand before row b: its group does not come later; within a group it was seen no
   * less often; seen equally often its destination does not come later, and then its port, its
   * verdict and its address do not.
   */
  ghost predicate MayPrecede(a: DestStat, b: DestStat) {
    && Group(a.verdict) <= Group(b.verdict)
    && (Group(a.verdict) == Group(b.verdict) ==> a.count >= b.count)
    && (Group(a.verdict) == Group(b.verdict) && a.count == b.count ==> DestinationsInOrder(a, b))
  }

  ghost predicate DestinationsInOrder(a: DestStat, b: DestStat) {
    var d, e := if a.domain != "" then a.domain else a.ip, if b.domain != "" then b.domain else b.ip;
    && !Precedes(e, d)
    && (d == e ==> a.port <= b.port)
    && (d == e && a.port == b.port ==> !Precedes(b.verdict, a.verdict))
    && (d == e && a.port == b.port && a.verdict == b.verdict ==> !Precedes(b.ip, a.ip))
  }

  lemma NotLessMayPrecede(a: DestStat, b: DestStat)
    requires !RowLess(b, a)
    ensures MayPrecede(a, b)
  {
    LessExactly(Destination(b), Destination(a));
    LessExactly(b.verdict, a.verdict);
    LessExactly(b.ip, a.ip);
    GroupIsSeverity(a.verdict);
    GroupIsSeverity(b.verdict);
  }

  lemma GroupIsSeverity(v: string)
    ensures Group(v) == Severity(v)
  {
  }

  /** The rows of a summary stand in this order, whatever sorted them. */
  lemma RowsInOrder(lib: Lib, h: seq<Event>, mode: string, malformed: nat, s: Summary, i: nat, j: nat)
    requires IsSummary(lib, h, mode, malformed, s) && i < j < |s.destinations|
    ensures MayPrecede(s.destinations[i], s.destinations[j])
  {
    NotLessMayPrecede(s.destinations[i], s.destinations[j]);
  }

  // ---------------------------------------------------------------- the rows

  /** The event is one that the row counts. */
  predicate Counts(lib: Lib, r: DestStat, e: Event) {
    && r.verdict == e.verdict && r.domain == e.domain && r.port == e.port
    && r.ip == match e.ip { case Some(a) => IPString(lib, a) case None => "" }
  }

  function CountOf(lib: Lib, r: DestStat, h: seq<Event>): nat {
    if h == [] then 0 else CountOf(lib, r, h[..|h| - 1]) + if Counts(lib, r, h[|h| - 1]) then 1 else 0
  }

  lemma CountsExactly(lib: Lib, r: DestStat, e: Event)
    ensures Counts(lib, r, e) <==> KeyOf(lib, e) == RowKey(r)
  {
  }

  lemma {:induction false} CountOfKey(lib: Lib, r: DestStat, h: seq<Event>)
    ensures CountOf(lib, r, h) == CountKeys(lib, h, {RowKey(r)})
  {
    if h != [] {
      CountOfKey(lib, r, h[..|h| - 1]);
      CountsExactly(lib, r, h[|h| - 1]);
    }
  }

  /**
   * Every event of the history is counted by one row and by no other, every row counts some
   * event, and its count is the number of those it counts.
   */
  lemma RowsPartitionEvents(lib: Lib, h: seq<Event>, mode: string, malformed: nat, s: Summary)
    requires IsSummary(lib, h, mode, malformed, s)
    ensures forall e :: e in h ==> exists i :: 0 <= i < |s.destinations| && Counts(lib, s.destinations[i], e)
    ensures forall e, i, j ::
              (0 <= i < |s.destinations| && 0 <= j < |s.destinations|
               && Counts(lib, s.destinations[i], e) && Counts(lib, s.destinations[j], e))
              ==> i == j
    ensures forall r :: r in s.destinations ==>
              r.count == CountOf(lib, r, h) && exists e :: e in h && Counts(lib, r, e)
  {
    var rows := s.destinations;
    forall e | e in h ensures exists i :: 0 <= i < |rows| && Counts(lib, rows[i], e) {
      var r := Row(lib, h, KeyOf(lib, e));
      assert KeyOf(lib, e) in Keys(lib, h) && r in rows;
      var i :| 0 <= i < |rows| && rows[i] == r;
      CountsExactly(lib, rows[i], e);
    }
    forall e, i, j | 0 <= i < |rows| && 0 <= j < |rows| && Counts(lib, rows[i], e) && Counts(lib, rows[j], e)
      ensures i == j
    {
      CountsExactly(lib, rows[i], e);
      CountsExactly(lib, rows[j], e);
    }
    forall r | r in rows ensures r.count == CountOf(lib, r, h) && exists e :: e in h && Counts(lib, r, e) {
      CountOfKey(lib, r, h);
      assert RowKey(r) in Keys(lib, h);
      var e :| e in h && KeyOf(lib, e) == RowKey(r);
      CountsExactly(lib, r, e);
    }
  }

  // ---------------------------------------------------------------- the candidates

  /** What the event would have allowed: its name, or its address when it has none. */
  function Candidate(lib: Lib, e: Event): string {
    if e.domain != "" then e.domain
    else match e.ip { case Some(a) => IPString(lib, a) case None => "" }
  }

  /** The suggestions are the candidates of the events that were not exempt, once each, in order. */
  lemma SuggestedExactly(lib: Lib, h: seq<Event>, mode: string, malformed: nat, s: Summary, x: string)
    requires IsSummary(lib, h, mode, malformed, s)
    ensures x in s.suggested <==> x != "" && exists e :: e in h && !("SKIP" <= e.verdict) && Candidate(lib, e) == x
    ensures forall i, j :: 0 <= i < j < |s.suggested| ==> Precedes(s.suggested[i], s.suggested[j])
  {
    assert x in s.suggested <==> x in Elements(s.suggested);
    if x in Suggestions(Keys(lib, h)) {
      var k :| k in Keys(lib, h) && !IsSkip(k.verdict) && NameOr(k.domain, k.ip) == x;
      var e :| e in h && KeyOf(lib, e) == k;
      assert Candidate(lib, e) == x;
    }
    if e :| e in h && !("SKIP" <= e.verdict) && Candidate(lib, e) == x {
      assert KeyOf(lib, e) in Keys(lib, h);
    }
    forall i, j | 0 <= i < j < |s.suggested| ensures Precedes(s.suggested[i], s.suggested[j]) {
      LessExactly(s.suggested[i], s.suggested[j]);
    }
  }

  /** The processes of a row stand in order. */
  lemma ProcessesInOrder(lib: Lib, h: seq<Event>, mode: string, malformed: nat, s: Summary, r: DestStat, i: nat, j: nat)
    requires IsSummary(lib, h, mode, malformed, s) && r in s.destinations && i < j < |r.processes|
    ensures Precedes(r.processes[i], r.processes[j])
  {
    ProcessesMeaning(lib, h, RowKey(r));
    LessExactly(r.processes[i], r.processes[j]);
  }
}
