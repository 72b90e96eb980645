/** The rows of the report and the six-key order they are sorted by. */
module Ordering {
  import opened Verdict
  import opened Sorting

  /** Events that share a verdict and a destination. */
  datatype DestStat = DestStat(
    verdict: string, domain: string, ip: string, port: nat,
    count: nat, processes: seq<string>, moreProcesses: nat)

  /** The domain when known, otherwise the address. */
  function NameOr(domain: string, ip: string): string {
    if domain != "" then domain else ip
  }

  function Destination(d: DestStat): string {
    NameOr(d.domain, d.ip)
  }

  /** Denials first, then what was allowed, then what was exempt, then unknown verdicts. */
  function Severity(v: string): (r: nat)
    ensures r <= 3
  {
    if IsDeny(v) then 0 else if IsAllow(v) then 1 else if IsSkip(v) then 2 else 3
  }

  predicate RowLess(a: DestStat, b: DestStat) {
    if Severity(a.verdict) != Severity(b.verdict) then Severity(a.verdict) < Severity(b.verdict)
    else if a.count != b.count then a.count > b.count
    else if Destination(a) != Destination(b) then StrLess(Destination(a), Destination(b))
    else if a.port != b.port then a.port < b.port
    else if a.verdict != b.verdict then StrLess(a.verdict, b.verdict)
    else StrLess(a.ip, b.ip)
  }

  /** The two rows agree on everything the comparator looks at. */
  predicate Tied(a: DestStat, b: DestStat) {
    a.count == b.count && Destination(a) == Destination(b) && a.port == b.port && a.verdict == b.verdict && a.ip == b.ip
  }

  lemma RowTrichotomy(a: DestStat, b: DestStat)
    ensures !(RowLess(a, b) && RowLess(b, a))
    ensures !RowLess(a, b) && !RowLess(b, a) <==> Tied(a, b)
  {
    StrTotal(Destination(a), Destination(b));
    StrTotal(a.verdict, b.verdict);
    StrTotal(a.ip, b.ip);
  }

  lemma RowTrans(a: DestStat, b: DestStat, c: DestStat)
    requires RowLess(a, b) && RowLess(b, c)
    ensures RowLess(a, c)
  {
    StrTotal(Destination(a), Destination(b));
    StrTotal(a.verdict, b.verdict);
    StrTrans(Destination(a), Destination(b), Destination(c));
    StrTrans(a.verdict, b.verdict, c.verdict);
    StrTrans(a.ip, b.ip, c.ip);
  }

  /** The comparator is one that sort.Slice accepts. */
  lemma RowOrder()
    ensures StrictWeak(RowLess)
  {
    forall a, b ensures RowLess(a, b) ==> !RowLess(b, a) {
      RowTrichotomy(a, b);
    }
    forall a, b, c | !RowLess(a, b) && !RowLess(b, c) ensures !RowLess(a, c) {
      NotLessTrans(a, b, c);
    }
  }

  lemma NotLessTrans(a: DestStat, b: DestStat, c: DestStat)
    requires !RowLess(a, b) && !RowLess(b, c)
    ensures !RowLess(a, c)
  {
    RowTrichotomy(a, b);
    RowTrichotomy(b, c);
    RowTrichotomy(a, c);
    if RowLess(c, b) && RowLess(b, a) {
      RowTrans(c, b, a);
    }
  }

  /** The aggregate key a row stands for. */
  predicate SameKey(a: DestStat, b: DestStat) {
    a.verdict == b.verdict && a.domain == b.domain && a.ip == b.ip && a.port == b.port
  }

  /** One row has no domain and the other's domain is the very text of their address. */
  predicate NamedByAddress(a: DestStat, b: DestStat) {
    (a.domain == "" && b.domain == b.ip && b.ip != "") || (b.domain == "" && a.domain == a.ip && a.ip != "")
  }

  /**
   * Two rows of different keys are left undecided exactly when they agree on verdict, count,
   * port and address and one has the address as its domain while the other has none.
   */
  lemma UndecidedExactly(a: DestStat, b: DestStat)
    requires !SameKey(a, b)
    ensures !RowLess(a, b) && !RowLess(b, a) <==> (
              a.verdict == b.verdict && a.count == b.count && a.port == b.port && a.ip == b.ip && NamedByAddress(a, b))
  {
    RowTrichotomy(a, b);
  }

  // ---------------------------------------------------------------- the four groups

  /** The rows whose verdict satisfies pred, in their order. */
  function Selected(rows: seq<DestStat>, pred: string -> bool): seq<DestStat> {
    if rows == [] then []
    else if pred(rows[0].verdict) then [rows[0]] + Selected(rows[1..], pred)
    else Selected(rows[1..], pred)
  }

  /** A verdict this build does not know: neither denied, allowed nor skipped. */
  predicate IsUnknown(v: string) {
    !IsDeny(v) && !IsAllow(v) && !IsSkip(v)
  }

  /** Nothing is selected among rows none of whose verdicts qualifies. */
  lemma {:induction false} SelectsNothing(rows: seq<DestStat>, pred: string -> bool)
    requires forall r :: r in rows ==> !pred(r.verdict)
    ensures Selected(rows, pred) == []
  {
    if rows != [] {
      assert rows == [rows[0]] + rows[1..];
      SelectsNothing(rows[1..], pred);
    }
  }

  lemma FirstIsLeast(rows: seq<DestStat>, r: DestStat)
    requires Sorted(rows, RowLess) && r in rows
    ensures Severity(rows[0].verdict) <= Severity(r.verdict)
  {
    var j :| 0 <= j < |rows| && rows[j] == r;
    assert j > 0 ==> !RowLess(rows[j], rows[0]);
  }

  function Groups(rows: seq<DestStat>): seq<DestStat> {
    Selected(rows, IsDeny) + Selected(rows, IsAllow) + Selected(rows, IsSkip) + Selected(rows, IsUnknown)
  }

  lemma SelectedCons(first: DestStat, rest: seq<DestStat>, pred: string -> bool)
    ensures Selected([first] + rest, pred)
         == if pred(first.verdict) then [first] + Selected(rest, pred) else Selected(rest, pred)
  {
    assert ([first] + rest)[1..] == rest;
  }

  /** Where the first element of four joined sequences comes from. */
  lemma JoinFour(x: DestStat, a: seq<DestStat>, b: seq<DestStat>, c: seq<DestStat>, d: seq<DestStat>)
    ensures ([x] + a) + b + c + d == [x] + (a + b + c + d)
    ensures [] + ([x] + b) + c + d == [x] + ([] + b + c + d)
    ensures [] + [] + ([x] + c) + d == [x] + ([] + [] + c + d)
    ensures [] + [] + [] + ([x] + d) == [x] + ([] + [] + [] + d)
  {
  }

  lemma NoneOf(first: DestStat, rest: seq<DestStat>, pred: string -> bool, k: nat)
    requires forall r :: r in rest ==> Severity(first.verdict) <= Severity(r.verdict)
    requires forall v :: pred(v) ==> Severity(v) <= k
    requires Severity(first.verdict) > k
    ensures Selected(rest, pred) == []
  {
    SelectsNothing(rest, pred);
  }

  lemma SeverityOf(v: string)
    ensures IsDeny(v) <==> Severity(v) == 0
    ensures IsAllow(v) <==> Severity(v) == 1
    ensures IsSkip(v) <==> Severity(v) == 2
    ensures IsUnknown(v) <==> Severity(v) == 3
  {
    KindsExclude(v);
  }

  lemma GroupsCons(first: DestStat, rest: seq<DestStat>)
    requires forall r :: r in rest ==> Severity(first.verdict) <= Severity(r.verdict)
    ensures Groups([first] + rest) == [first] + Groups(rest)
  {
    forall v {
      SeverityOf(v);
    }
    var k := Severity(first.verdict);
    var a, b := Selected(rest, IsDeny), Selected(rest, IsAllow);
    var c, d := Selected(rest, IsSkip), Selected(rest, IsUnknown);
    if k > 0 { NoneOf(first, rest, IsDeny, 0); }
    if k > 1 { NoneOf(first, rest, IsAllow, 1); }
    if k > 2 { NoneOf(first, rest, IsSkip, 2); }
    GroupsOfCons(first, rest);
    JoinFour(first, a, b, c, d);
  }

  lemma GroupsOfCons(first: DestStat, rest: seq<DestStat>)
    ensures var k := Severity(first.verdict);
            var a, b := Selected(rest, IsDeny), Selected(rest, IsAllow);
            var c, d := Selected(rest, IsSkip), Selected(rest, IsUnknown);
            Groups([first] + rest)
            == (if k == 0 then [first] + a else a) + (if k == 1 then [first] + b else b)
               + (if k == 2 then [first] + c else c) + (if k == 3 then [first] + d else d)
  {
    SeverityOf(first.verdict);
    SelectedCons(first, rest, IsDeny);
    SelectedCons(first, rest, IsAllow);
    SelectedCons(first, rest, IsSkip);
    SelectedCons(first, rest, IsUnknown);
  }

  /** Sorted rows are Denied, Allowed, Skipped and the unknown ones, in that order. */
  lemma {:induction false} GroupsInOrder(rows: seq<DestStat>)
    requires Sorted(rows, RowLess)
    ensures rows == Groups(rows)
  {
    if rows != [] {
      assert rows == [rows[0]] + rows[1..];
      GroupsInOrder(rows[1..]);
      forall r | r in rows[1..] ensures Severity(rows[0].verdict) <= Severity(r.verdict) {
        FirstIsLeast(rows, r);
      }
      GroupsCons(rows[0], rows[1..]);
    }
  }
}
