/** The collector object: the mutable tallies behind the report, and the queries on a summary. */
module Collector {
  import opened Net
  import opened Verdict
  import opened LogLine
  import opened Sorting
  import opened Ordering
  import opened Summary

  /** One more event of a destination; a name is marked as seen whether or not it is kept. */
  method CountProcess(before: DestAgg, comm: string) returns (agg: DestAgg)
    ensures agg == Bump(before, comm)
  {
    agg := before.(count := before.count + 1);
    if comm != "" {
      if comm !in agg.procSeen {
        agg := agg.(procSeen := agg.procSeen + {comm});
        if |agg.procs| < MAX_PROCESSES {
          agg := agg.(procs := agg.procs + [comm]);
        } else {
          agg := agg.(procsMore := agg.procsMore + 1);
        }
      }
    }
  }

  class Collector {
    const lib: Lib
    var mode: string
    var total: nat
    var malformed: nat
    var byVerdict: map<string, nat>
    var dests: map<DestKey, DestAgg>
    ghost var history: seq<Event>

    /** The tallies are those of the events added so far. */
    ghost predicate Valid()
      reads this
    {
      Tallies(total, byVerdict, dests) == TalliesOf(lib, history)
    }

    constructor (l: Lib)
      ensures Valid() && lib == l && history == [] && mode == "" && malformed == 0
    {
      lib := l;
      mode, total, malformed, byVerdict, dests, history := "", 0, 0, map[], map[], [];
    }

    method Add(ev: Event)
      requires Valid()
      modifies this`total, this`byVerdict, this`dests, this`history
      ensures Valid() && history == old(history) + [ev]
    {
      ghost var n, b, d := total, byVerdict, dests;
      total := total + 1;
      byVerdict := byVerdict[ev.verdict := (if ev.verdict in byVerdict then byVerdict[ev.verdict] else 0) + 1];
      var k := KeyOf(lib, ev);
      var agg := if k in dests then dests[k] else DestAgg(0, [], {}, 0);
      agg := CountProcess(agg, ev.comm);
      dests := dests[k := agg];
      AddedIs(lib, ev, n, b, d, byVerdict, dests);
      TalliesAppend(lib, history, ev);
      history := history + [ev];
    }

    method SetMode(m: string)
      requires Valid()
      modifies this`mode
      ensures Valid() && mode == m
    {
      mode := m;
    }

    method SetMalformed(n: nat)
      requires Valid()
      modifies this`malformed
      ensures Valid() && malformed == n
    {
      malformed := n;
    }

    /** The rows, in whatever order the aggregate table yields its keys. */
    method Rows() returns (rows: seq<DestStat>)
      requires Valid()
      ensures NoDup(rows) && forall r :: r in rows <==> r in AllRows(lib, history)
    {
      TalliesMeaning(lib, history);
      rows := [];
      var todo := dests.Keys;
      while todo != {}
        invariant todo <= dests.Keys && NoDup(rows)
        invariant forall r :: r in rows <==> RowKey(r) in dests.Keys - todo && r == Row(lib, history, RowKey(r))
        decreases todo
      {
        var k :| k in todo;
        var agg := dests[k];
        var row := DestStat(k.verdict, k.domain, k.ip, k.port, agg.count, Sort(agg.procs, StrLess), agg.procsMore);
        assert row == Row(lib, history, k);
        NoDupCons(row, rows);
        rows := rows + [row];
        todo := todo - {k};
      }
    }

    /** The allowlist candidates. */
    method SuggestedSet() returns (s: set<string>)
      requires Valid()
      ensures s == Suggestions(Keys(lib, history))
    {
      TalliesMeaning(lib, history);
      s := {};
      var todo := dests.Keys;
      ghost var done := {};
      while todo != {}
        invariant done + todo == dests.Keys && s == Suggestions(done)
        decreases todo
      {
        var k :| k in todo;
        SuggestionsStep(done, k);
        if !IsSkip(k.verdict) {
          var dst := k.domain;
          if dst == "" {
            dst := k.ip;
          }
          if dst != "" {
            s := s + {dst};
          }
        }
        todo, done := todo - {k}, done + {k};
      }
    }

    /** Renders the state and leaves it as it is, so it may be called again at any time. */
    method Summarize() returns (s: Summary)
      requires Valid()
      ensures IsSummary(lib, history, mode, malformed, s)
    {
      TalliesMeaning(lib, history);
      var rows := Rows();
      RowOrder();
      SortIsSorted(rows, RowLess);
      NoDupPermutes(rows, Sort(rows, RowLess), AllRows(lib, history));
      RowsAreOnceEach(lib, history, Sort(rows, RowLess));
      var candidates := SuggestedSet();
      var suggested := SortedElements(candidates);
      s := Summary(mode, total, malformed, byVerdict, Sort(rows, RowLess), suggested);
    }
  }

  // ---------------------------------------------------------------- queries on a summary

  /** Summary.filter: the rows of some verdicts, in their order. */
  method Filter(rows: seq<DestStat>, pred: string -> bool) returns (out: seq<DestStat>)
    ensures out == Selected(rows, pred)
  {
    out := [];
    assert rows[0..] == rows;
    for i := 0 to |rows|
      invariant out + Selected(rows[i..], pred) == Selected(rows, pred)
    {
      assert rows[i..][1..] == rows[i + 1..];
      if pred(rows[i].verdict) {
        out := out + [rows[i]];
      }
    }
  }

  /** Summary.countEvents: how many of the events have a verdict of that kind. */
  method CountEvents(byVerdict: map<string, nat>, ghost h: seq<Event>, pred: string -> bool) returns (n: nat)
    requires byVerdict == Tally(h)
    ensures n == CountVerdicts(h, set v | v in Verdicts(h) && pred(v))
  {
    n := 0;
    var todo := byVerdict.Keys;
    NoKeysAtAll(h);
    while todo != {}
      invariant todo <= byVerdict.Keys
      invariant n == CountVerdicts(h, set v | v in byVerdict.Keys - todo && pred(v))
      decreases todo
    {
      var v :| v in todo;
      ghost var before := set u | u in byVerdict.Keys - todo && pred(u);
      ghost var after := set u | u in byVerdict.Keys - (todo - {v}) && pred(u);
      if pred(v) {
        n := n + byVerdict[v];
        assert after == before + {v};
        CountVerdictsSplit(h, before, v);
      } else {
        assert after == before;
      }
      todo := todo - {v};
    }
    assert (set v | v in byVerdict.Keys - {} && pred(v)) == (set v | v in Verdicts(h) && pred(v));
  }

  lemma NoKeysAtAll(h: seq<Event>)
    ensures forall vs: set<string> :: vs == {} ==> CountVerdicts(h, vs) == 0
  {
    NoVerdicts(h);
  }

  function CountsOf(byVerdict: map<string, nat>, vs: seq<string>): seq<(string, nat)> {
    if vs == [] then []
    else
      var front, v := CountsOf(byVerdict, vs[..|vs| - 1]), vs[|vs| - 1];
      if v in byVerdict then front + [(v, byVerdict[v])] else front
  }

  /**
   * Each verdict that occurs once, with its count: the known ones in their fixed order, then
   * the others alphabetically.
   */
  ghost predicate IsListing(byVerdict: map<string, nat>, known: seq<string>, out: seq<(string, nat)>) {
    && (exists rest ::
          && Increasing(rest)
          && (forall v :: v in rest <==> v in byVerdict && v !in known)
          && out == CountsOf(byVerdict, known + rest))
    && (forall i, j :: 0 <= i < j < |out| ==> out[i].0 != out[j].0)
    && (forall p :: p in out <==> p.0 in byVerdict && p.1 == byVerdict[p.0])
    && (forall i, j :: 0 <= i < j < |out| ==> Comes(known, out[i].0, out[j].0))
  }

  /** In the order of the list; what is not on it comes later and in the order of texts. */
  ghost predicate Comes(known: seq<string>, v: string, w: string) {
    || (exists k, l :: 0 <= k < l < |known| && known[k] == v && known[l] == w)
    || (v in known && w !in known)
    || (v !in known && w !in known && StrLess(v, w))
  }

  lemma ComesByPlace(known: seq<string>, others: seq<string>, k: nat, l: nat)
    requires k < l < |known + others| && Increasing(others)
    requires forall v :: v in others ==> v !in known
    ensures Comes(known, (known + others)[k], (known + others)[l])
  {
    var all := known + others;
    if l < |known| {
      assert known[k] == all[k] && known[l] == all[l];
    } else {
      assert all[l] == others[l - |known|] && all[l] in others;
      if k < |known| {
        assert all[k] == known[k];
      } else {
        assert all[k] == others[k - |known|] && all[k] in others;
      }
    }
  }

  /** Summary.VerdictCounts. */
  method VerdictCounts(byVerdict: map<string, nat>) returns (out: seq<(string, nat)>)
    ensures IsListing(byVerdict, KNOWN, out)
  {
    KnownAreDistinct();
    out := CountsFrom(byVerdict, KNOWN);
  }

  method CountsFrom(byVerdict: map<string, nat>, known: seq<string>) returns (out: seq<(string, nat)>)
    requires NoDup(known)
    ensures IsListing(byVerdict, known, out)
  {
    out := CountsInOrder(byVerdict, known, []);
    var others := SortedElements(set v | v in byVerdict && v !in known);
    out := CountsInOrder(byVerdict, others, out);
    CountsOfConcat(byVerdict, known, others);
    assert out == CountsOf(byVerdict, known + others);
    EachListedOnce(byVerdict, known, others);
  }

  /** One of its two loops: appends the counts of those verdicts that occur. */
  method CountsInOrder(byVerdict: map<string, nat>, vs: seq<string>, before: seq<(string, nat)>)
    returns (out: seq<(string, nat)>)
    ensures out == before + CountsOf(byVerdict, vs)
  {
    out := before;
    for i := 0 to |vs|
      invariant out == before + CountsOf(byVerdict, vs[..i])
    {
      assert vs[..i + 1][..i] == vs[..i];
      if vs[i] in byVerdict {
        out := out + [(vs[i], byVerdict[vs[i]])];
      }
    }
    assert vs[..|vs|] == vs;
  }

  lemma {:induction false} CountsOfConcat(byVerdict: map<string, nat>, a: seq<string>, b: seq<string>)
    ensures CountsOf(byVerdict, a + b) == CountsOf(byVerdict, a) + CountsOf(byVerdict, b)
  {
    if b == [] {
      assert a + b == a;
    } else {
      var front := b[..|b| - 1];
      CountsOfConcat(byVerdict, a, front);
      assert (a + b)[..|a + b| - 1] == a + front;
    }
  }

  lemma EachListedOnce(byVerdict: map<string, nat>, known: seq<string>, others: seq<string>)
    requires NoDup(known) && Increasing(others) && forall v :: v in others <==> v in byVerdict && v !in known
    ensures IsListing(byVerdict, known, CountsOf(byVerdict, known + others))
  {
    IncreasingExactly(others);
    forall i, j | 0 <= i < j < |known + others| ensures (known + others)[i] != (known + others)[j] {
      if i < |known| <= j {
        assert others[j - |known|] in others;
      }
    }
    CountsOfMeaning(byVerdict, known + others);
    var out := CountsOf(byVerdict, known + others);
    var places := CountsOfInOrder(byVerdict, known + others);
    forall i, j | 0 <= i < j < |out| ensures Comes(known, out[i].0, out[j].0) {
      ComesByPlace(known, others, places[i], places[j]);
    }
  }

  /** The tally lists each verdict that occurs once, with its count, and no other. */
  lemma {:induction false} CountsOfMeaning(byVerdict: map<string, nat>, vs: seq<string>)
    requires NoDup(vs)
    ensures var c := CountsOf(byVerdict, vs);
            && (forall i, j :: 0 <= i < j < |c| ==> c[i].0 != c[j].0)
            && (forall p :: p in c <==> p.0 in vs && p.0 in byVerdict && p.1 == byVerdict[p.0])
  {
    if vs != [] {
      var front, v := vs[..|vs| - 1], vs[|vs| - 1];
      assert vs == front + [v];
      CountsOfMeaning(byVerdict, front);
      var c := CountsOf(byVerdict, front);
      forall i | 0 <= i < |c| ensures c[i].0 != v {
        assert c[i] in c;
      }
    }
  }

  /** Where the entries of the tally stand in the list. */
  ghost predicate ArePlaces(vs: seq<string>, c: seq<(string, nat)>, places: seq<nat>) {
    && |places| == |c|
    && (forall i :: 0 <= i < |c| ==> places[i] < |vs| && vs[places[i]] == c[i].0)
    && (forall i, j :: 0 <= i < j < |c| ==> places[i] < places[j])
  }

  lemma PlacesGrow(front: seq<string>, v: string, c: seq<(string, nat)>, places: seq<nat>, n: nat)
    requires ArePlaces(front, c, places)
    ensures ArePlaces(front + [v], c, places)
    ensures ArePlaces(front + [v], c + [(v, n)], places + [|front|])
  {
  }

  /** They stand there in the same order. */
  lemma {:induction false} CountsOfInOrder(byVerdict: map<string, nat>, vs: seq<string>) returns (places: seq<nat>)
    ensures ArePlaces(vs, CountsOf(byVerdict, vs), places)
  {
    if vs == [] {
      places := [];
    } else {
      var front, v := vs[..|vs| - 1], vs[|vs| - 1];
      places := CountsOfInOrder(byVerdict, front);
      PlacesGrow(front, v, CountsOf(byVerdict, front), places, if v in byVerdict then byVerdict[v] else 0);
      assert vs == front + [v];
      if v in byVerdict {
        places := places + [|front|];
      }
    }
  }

  lemma KnownAreDistinct()
    ensures NoDup(KNOWN)
  {
    assert |ALLOW| == 5 && |SKIP_DNS| == 9 && |SKIP_SELF| == 10;
    assert |SKIP_LOOPBACK| == 14 && |DENY_NO_DOMAIN| == 15 && |DENY_POLICY| == 19;
  }
}
