/**
 * The startup lookups: one goroutine per domain, at most eight at once, each writing its own
 * result slot. A schedule picks, at every moment, the main goroutine or a worker to move.
 */
module SeedPool {
  import opened Basics
  import opened Net
  import opened Kernel
  import opened Enforcement
  import opened ReportSoundness

  const MAX_LOOKUPS: nat := 8

  /** The answer of a lookup: addresses, or an error. */
  type LookupAnswer = Option<seq<IP>>

  /** One slot a domain; None is one that was not written yet. */
  type Slots = seq<Option<LookupAnswer>>

  /** Where a worker is: in its lookup, its slot written, its token returned, done. */
  datatype Phase = Looking | Stored | Released | Finished

  /** Where the main goroutine is; Waiting is wg.Wait. */
  datatype Main = Adding | Acquiring | Spawning | Waiting | Returned

  /**
   * workers has one phase per goroutine started so far; tokens and group are the semaphore's
   * fill and the wait group's count.
   */
  datatype Pool = Pool(main: Main, workers: seq<Phase>, tokens: nat, group: int, results: Slots)

  /** Who moves next. */
  datatype Move = MainMoves | WorkerMoves(i: nat)

  // ---------------------------------------------------------------- the steps

  function Start(n: nat): Pool {
    Pool(if n == 0 then Waiting else Adding, [], 0, 0, seq(n, _ => None))
  }

  predicate Enabled(p: Pool, m: Move) {
    match m
    case MainMoves =>
      (match p.main
       case Adding => true
       case Acquiring => p.tokens < MAX_LOOKUPS
       case Spawning => true
       case Waiting => p.group == 0
       case Returned => false)
    case WorkerMoves(i) => i < |p.workers| && p.workers[i] != Finished
  }

  /** One step of an enabled move; lookup gives the answer for each domain index. */
  function Step(p: Pool, m: Move, lookup: nat -> LookupAnswer): Pool
    requires Enabled(p, m)
  {
    match m
    case MainMoves =>
      (match p.main
       case Adding => p.(main := Acquiring, group := p.group + 1)
       case Acquiring => p.(main := Spawning, tokens := p.tokens + 1)
       case Spawning =>
         p.(main := if |p.workers| + 1 < |p.results| then Adding else Waiting, workers := p.workers + [Looking])
       case Waiting => p.(main := Returned)
       case Returned => p)
    case WorkerMoves(i) =>
      (match p.workers[i]
       case Looking =>
         p.(workers := p.workers[i := Stored],
            results := if i < |p.results| then p.results[i := Some(lookup(i))] else p.results)
       case Stored => p.(workers := p.workers[i := Released], tokens := if p.tokens > 0 then p.tokens - 1 else 0)
       case Released => p.(workers := p.workers[i := Finished], group := p.group - 1)
       case Finished => p)
  }

  // ---------------------------------------------------------------- counting

  predicate HoldsToken(w: Phase) {
    w == Looking || w == Stored
  }

  function Holders(ws: seq<Phase>): nat {
    if ws == [] then 0 else Holders(ws[..|ws| - 1]) + if HoldsToken(ws[|ws| - 1]) then 1 else 0
  }

  function Unfinished(ws: seq<Phase>): nat {
    if ws == [] then 0 else Unfinished(ws[..|ws| - 1]) + if ws[|ws| - 1] != Finished then 1 else 0
  }

  function InLookup(ws: seq<Phase>): nat {
    if ws == [] then 0 else InLookup(ws[..|ws| - 1]) + if ws[|ws| - 1] == Looking then 1 else 0
  }

  /** Steps a worker still has to make. */
  function Left(w: Phase): nat {
    match w case Looking => 3 case Stored => 2 case Released => 1 case Finished => 0
  }

  function WorkLeft(ws: seq<Phase>): nat {
    if ws == [] then 0 else WorkLeft(ws[..|ws| - 1]) + Left(ws[|ws| - 1])
  }

  lemma {:induction false} CountsUpdate(ws: seq<Phase>, i: nat, w: Phase)
    requires i < |ws|
    ensures Holders(ws[i := w]) == Holders(ws) - (if HoldsToken(ws[i]) then 1 else 0) + (if HoldsToken(w) then 1 else 0)
    ensures Unfinished(ws[i := w])
         == Unfinished(ws) - (if ws[i] != Finished then 1 else 0) + (if w != Finished then 1 else 0)
    ensures WorkLeft(ws[i := w]) == WorkLeft(ws) - Left(ws[i]) + Left(w)
  {
    var k := |ws| - 1;
    if i == k {
      assert ws[i := w][..k] == ws[..k];
    } else {
      assert ws[i := w][..k] == ws[..k][i := w];
      CountsUpdate(ws[..k], i, w);
    }
  }

  lemma CountsAppend(ws: seq<Phase>)
    ensures Holders(ws + [Looking]) == Holders(ws) + 1 && Unfinished(ws + [Looking]) == Unfinished(ws) + 1
    ensures WorkLeft(ws + [Looking]) == WorkLeft(ws) + 3
  {
    assert (ws + [Looking])[..|ws|] == ws;
  }

  lemma {:induction false} CountsOrder(ws: seq<Phase>)
    ensures InLookup(ws) <= Holders(ws) <= Unfinished(ws)
    ensures Unfinished(ws) > 0 ==> exists i :: 0 <= i < |ws| && ws[i] != Finished
    ensures Unfinished(ws) == 0 ==> forall i :: 0 <= i < |ws| ==> ws[i] == Finished
  {
    if ws != [] {
      CountsOrder(ws[..|ws| - 1]);
    }
  }

  // ---------------------------------------------------------------- the invariant

  ghost predicate SlotsRight(p: Pool, lookup: nat -> LookupAnswer) {
    forall i :: 0 <= i < |p.results| ==>
      p.results[i] == if i < |p.workers| && p.workers[i] != Looking then Some(lookup(i)) else None
  }

  ghost predicate Good(p: Pool, n: nat, lookup: nat -> LookupAnswer) {
    && |p.results| == n
    && (p.main.Waiting? || p.main.Returned? ==> |p.workers| == n)
    && (!p.main.Waiting? && !p.main.Returned? ==> |p.workers| < n)
    && p.tokens == Holders(p.workers) + (if p.main.Spawning? then 1 else 0)
    && p.tokens <= MAX_LOOKUPS
    && p.group == Unfinished(p.workers) + (if p.main.Acquiring? || p.main.Spawning? then 1 else 0)
    && (p.main.Returned? ==> p.group == 0)
    && SlotsRight(p, lookup)
  }

  lemma MainKeepsGood(p: Pool, n: nat, lookup: nat -> LookupAnswer)
    requires Good(p, n, lookup) && Enabled(p, MainMoves)
    ensures Good(Step(p, MainMoves, lookup), n, lookup)
  {
    CountsAppend(p.workers);
  }

  lemma WorkerKeepsSlots(p: Pool, i: nat, n: nat, lookup: nat -> LookupAnswer)
    requires Good(p, n, lookup) && Enabled(p, WorkerMoves(i))
    ensures SlotsRight(Step(p, WorkerMoves(i), lookup), lookup)
  {
  }

  lemma WorkerKeepsGood(p: Pool, i: nat, n: nat, lookup: nat -> LookupAnswer)
    requires Good(p, n, lookup) && Enabled(p, WorkerMoves(i))
    ensures Good(Step(p, WorkerMoves(i), lookup), n, lookup)
  {
    CountsUpdate(p.workers, i, Step(p, WorkerMoves(i), lookup).workers[i]);
    CountsOrder(p.workers);
    WorkerKeepsSlots(p, i, n, lookup);
  }

  lemma StepKeepsGood(p: Pool, m: Move, n: nat, lookup: nat -> LookupAnswer)
    requires Good(p, n, lookup) && Enabled(p, m)
    ensures Good(Step(p, m, lookup), n, lookup)
  {
    match m
    case MainMoves => MainKeepsGood(p, n, lookup);
    case WorkerMoves(i) => WorkerKeepsGood(p, i, n, lookup);
  }

  // ---------------------------------------------------------------- schedules

  /** The state a schedule leads to; None when it asks for a move that is not enabled. */
  function Play(n: nat, moves: seq<Move>, lookup: nat -> LookupAnswer): Option<Pool> {
    if moves == [] then Some(Start(n))
    else
      match Play(n, moves[..|moves| - 1], lookup)
      case Some(p) => if Enabled(p, moves[|moves| - 1]) then Some(Step(p, moves[|moves| - 1], lookup)) else None
      case None => None
  }

  /** Steps that are left in all: every schedule gets shorter by each one. */
  function StepsLeft(p: Pool, n: nat): int {
    WorkLeft(p.workers) + 6 * (n - |p.workers|) + MainLeft(p.main)
  }

  function MainLeft(m: Main): int {
    match m case Adding => 1 case Acquiring => 0 case Spawning => -1 case Waiting => 1 case Returned => 0
  }

  lemma MainMakesProgress(p: Pool, n: nat, lookup: nat -> LookupAnswer)
    requires Good(p, n, lookup) && Enabled(p, MainMoves)
    ensures StepsLeft(Step(p, MainMoves, lookup), n) < StepsLeft(p, n)
  {
    CountsAppend(p.workers);
  }

  lemma WorkerMakesProgress(p: Pool, i: nat, n: nat, lookup: nat -> LookupAnswer)
    requires Good(p, n, lookup) && Enabled(p, WorkerMoves(i))
    ensures StepsLeft(Step(p, WorkerMoves(i), lookup), n) < StepsLeft(p, n)
  {
    CountsUpdate(p.workers, i, Step(p, WorkerMoves(i), lookup).workers[i]);
  }

  lemma StepMakesProgress(p: Pool, m: Move, n: nat, lookup: nat -> LookupAnswer)
    requires Good(p, n, lookup) && Enabled(p, m)
    ensures 0 <= StepsLeft(Step(p, m, lookup), n) < StepsLeft(p, n)
  {
    StepKeepsGood(p, m, n, lookup);
    match m
    case MainMoves => MainMakesProgress(p, n, lookup);
    case WorkerMoves(i) => WorkerMakesProgress(p, i, n, lookup);
  }

  /**
   * In every interleaving over any number of domains: the invariant holds, at most eight
   * lookups run at once, and no schedule has more than 6n + 1 steps.
   */
  lemma {:induction false} EverySchedule(n: nat, moves: seq<Move>, lookup: nat -> LookupAnswer)
    requires Play(n, moves, lookup).Some?
    ensures var p := Play(n, moves, lookup).value;
            && Good(p, n, lookup) && InLookup(p.workers) <= 8
            && |moves| + StepsLeft(p, n) <= 6 * n + 1
  {
    if moves != [] {
      var k := |moves| - 1;
      EverySchedule(n, moves[..k], lookup);
      var p := Play(n, moves[..k], lookup).value;
      StepKeepsGood(p, moves[k], n, lookup);
      StepMakesProgress(p, moves[k], n, lookup);
    }
    CountsOrder(Play(n, moves, lookup).value.workers);
  }

  /** No schedule deadlocks: until the main goroutine has returned, somebody can move. */
  lemma NoDeadlock(n: nat, moves: seq<Move>, lookup: nat -> LookupAnswer) returns (m: Move)
    requires Play(n, moves, lookup).Some? && !Play(n, moves, lookup).value.main.Returned?
    ensures Enabled(Play(n, moves, lookup).value, m)
  {
    var p := Play(n, moves, lookup).value;
    EverySchedule(n, moves, lookup);
    CountsOrder(p.workers);
    if Enabled(p, MainMoves) {
      m := MainMoves;
    } else {
      var i :| 0 <= i < |p.workers| && p.workers[i] != Finished;
      m := WorkerMoves(i);
    }
  }

  /** When wg.Wait has returned, every slot holds the answer for its own domain. */
  lemma ResultsAreAnswers(n: nat, moves: seq<Move>, lookup: nat -> LookupAnswer)
    requires Play(n, moves, lookup).Some? && Play(n, moves, lookup).value.main.Returned?
    ensures Play(n, moves, lookup).value.results == seq(n, i requires 0 <= i < n => Some(lookup(i)))
  {
    EverySchedule(n, moves, lookup);
    CountsOrder(Play(n, moves, lookup).value.workers);
  }

  // ---------------------------------------------------------------- what is seeded

  /** The writes made from the result slots, in order; a failed lookup makes none. */
  function SeedSteps(domains: seq<string>, results: Slots): seq<Enforcement.Step>
    requires |domains| == |results|
  {
    if domains == [] then []
    else
      var k := |domains| - 1;
      SeedSteps(domains[..k], results[..k]) + LookupSteps(domains[k], AnswerIn(results[k]))
  }

  /** What a slot holds: nothing when the lookup failed or never wrote it. */
  function AnswerIn(slot: Option<LookupAnswer>): seq<IP> {
    match slot case Some(Some(ips)) => ips case _ => []
  }

  function LookupSteps(d: string, ips: seq<IP>): seq<Enforcement.Step> {
    seq(|ips|, i requires 0 <= i < |ips| => SeedLookup(d, ips[i], false))
  }

  /** The slots hold the answers for their domains, which is what wg.Wait guarantees. */
  ghost predicate Answered(domains: seq<string>, results: Slots, answer: string -> LookupAnswer) {
    |results| == |domains| && forall i :: 0 <= i < |domains| ==> results[i] == Some(answer(domains[i]))
  }

  predicate Seeds(domains: seq<string>, answer: string -> LookupAnswer, step: Enforcement.Step) {
    && step.SeedLookup? && !step.fault && step.domain in domains
    && answer(step.domain).Some? && step.ip in answer(step.domain).value
  }

  lemma WritesOf(d: string, ips: seq<IP>, step: Enforcement.Step)
    ensures step in LookupSteps(d, ips)
        <==> step.SeedLookup? && !step.fault && step.domain == d && step.ip in ips
  {
    var w := LookupSteps(d, ips);
    if step.SeedLookup? && !step.fault && step.domain == d && step.ip in ips {
      var i :| 0 <= i < |ips| && ips[i] == step.ip;
      assert w[i] == step;
    }
  }

  /** The writes are those of the answers, whatever the order of the domains. */
  lemma {:induction false} SeedStepsMeaning(domains: seq<string>, results: Slots,
                                            answer: string -> LookupAnswer, step: Enforcement.Step)
    requires Answered(domains, results, answer)
    ensures step in SeedSteps(domains, results) <==> Seeds(domains, answer, step)
  {
    if domains != [] {
      var k := |domains| - 1;
      SeedStepsMeaning(domains[..k], results[..k], answer, step);
      assert domains == domains[..k] + [domains[k]];
      WritesOf(domains[k], AnswerIn(results[k]), step);
    }
  }

  /** Each worker looks up the domain of its own index. */
  function LookupOf(domains: seq<string>, answer: string -> LookupAnswer): nat -> LookupAnswer {
    (i: nat) => if i < |domains| then answer(domains[i]) else None
  }

  /** A finished schedule over these domains, and the slots it leaves. */
  ghost predicate Finishes(domains: seq<string>, moves: seq<Move>, answer: string -> LookupAnswer, results: Slots) {
    var play := Play(|domains|, moves, LookupOf(domains, answer));
    play.Some? && play.value.main.Returned? && play.value.results == results
  }

  lemma FinishedIsAnswered(domains: seq<string>, moves: seq<Move>, answer: string -> LookupAnswer, results: Slots)
    requires Finishes(domains, moves, answer, results)
    ensures Answered(domains, results, answer)
  {
    ResultsAreAnswers(|domains|, moves, LookupOf(domains, answer));
  }

  /** The two runs ask for the same keys up to here. */
  ghost predicate SameKeys(s: Setup, a: seq<Enforcement.Step>, b: seq<Enforcement.Step>) {
    forall p :: Asked(s, a, p) <==> Asked(s, b, p)
  }

  lemma AskedConcat(s: Setup, a: seq<Enforcement.Step>, b: seq<Enforcement.Step>, p: Prefix)
    ensures Asked(s, a + b, p) <==> Asked(s, a, p) || Asked(s, b, p)
  {
    if Asked(s, a, p) {
      var step :| step in a && Contributes(s, step, p);
      assert step in a + b;
    }
    if Asked(s, b, p) {
      var step :| step in b && Contributes(s, step, p);
      assert step in a + b;
    }
  }

  lemma SeedsAreAsked(s: Setup, da: seq<string>, ra: Slots,
                      db: seq<string>, rb: Slots, answer: string -> LookupAnswer, p: Prefix)
    requires Answered(da, ra, answer) && Answered(db, rb, answer)
    requires forall d :: d in da ==> d in db
    requires Asked(s, SeedSteps(da, ra), p)
    ensures Asked(s, SeedSteps(db, rb), p)
  {
    var step :| step in SeedSteps(da, ra) && Contributes(s, step, p);
    SeedStepsMeaning(da, ra, answer, step);
    SeedStepsMeaning(db, rb, answer, step);
  }

  lemma SameSeeds(s: Setup, da: seq<string>, ra: Slots,
                  db: seq<string>, rb: Slots, answer: string -> LookupAnswer)
    requires Answered(da, ra, answer) && Answered(db, rb, answer)
    requires forall d :: d in da <==> d in db
    ensures SameKeys(s, SeedSteps(da, ra), SeedSteps(db, rb))
  {
    forall p ensures Asked(s, SeedSteps(da, ra), p) <==> Asked(s, SeedSteps(db, rb), p) {
      if Asked(s, SeedSteps(da, ra), p) {
        SeedsAreAsked(s, da, ra, db, rb, answer, p);
      }
      if Asked(s, SeedSteps(db, rb), p) {
        SeedsAreAsked(s, db, rb, da, ra, answer, p);
      }
    }
  }

  /**
   * The seeded tries depend neither on the schedule nor on the order in which the engine
   * lists its domains: after earlier writes for the same keys, two finished startups with the
   * same answer for each domain and no failed write end with the same tries.
   */
  lemma SeedingIsDeterministic(s: Setup, answer: string -> LookupAnswer,
                               ea: seq<Enforcement.Step>, da: seq<string>, a: seq<Move>, ra: Slots,
                               eb: seq<Enforcement.Step>, db: seq<string>, b: seq<Move>, rb: Slots)
    requires Finishes(da, a, answer, ra) && Finishes(db, b, answer, rb)
    requires |ra| == |da| && |rb| == |db|
    requires SameKeys(s, ea, eb) && forall d :: d in da <==> d in db
    requires Run(s, ea + SeedSteps(da, ra)).failed == 0 && Run(s, eb + SeedSteps(db, rb)).failed == 0
    ensures var m, n := Run(s, ea + SeedSteps(da, ra)).maps, Run(s, eb + SeedSteps(db, rb)).maps;
            m.ips4 == n.ips4 && m.ips6 == n.ips6
  {
    FinishedIsAnswered(da, a, answer, ra);
    FinishedIsAnswered(db, b, answer, rb);
    SameSeeds(s, da, ra, db, rb, answer);
    forall p ensures Asked(s, ea + SeedSteps(da, ra), p) <==> Asked(s, eb + SeedSteps(db, rb), p) {
      AskedConcat(s, ea, SeedSteps(da, ra), p);
      AskedConcat(s, eb, SeedSteps(db, rb), p);
    }
    OrderIsIrrelevant(s, ea + SeedSteps(da, ra), eb + SeedSteps(db, rb));
  }

  // ---------------------------------------------------------------- what is logged

  predicate SameWrite(x: Enforcement.Step, y: Enforcement.Step) {
    x.SeedLookup? && y.SeedLookup? && x.domain == y.domain && x.ip == y.ip
  }

  /** The same writes in the same order; whether the kernel refused one is not compared. */
  ghost predicate UpToFaults(logged: seq<Enforcement.Step>, wanted: seq<Enforcement.Step>) {
    |logged| == |wanted| && forall i :: 0 <= i < |wanted| ==> SameWrite(logged[i], wanted[i])
  }

  lemma UpToFaultsConcat(a: seq<Enforcement.Step>, b: seq<Enforcement.Step>,
                         c: seq<Enforcement.Step>, d: seq<Enforcement.Step>)
    requires UpToFaults(a, c) && UpToFaults(b, d)
    ensures UpToFaults(a + b, c + d)
  {
  }

  /** One more address of a lookup. */
  lemma LookupStepsNext(logged: seq<Enforcement.Step>, d: string, ips: seq<IP>, n: nat, fault: bool)
    requires n < |ips| && UpToFaults(logged, LookupSteps(d, ips[..n]))
    ensures UpToFaults(logged + [SeedLookup(d, ips[n], fault)], LookupSteps(d, ips[..n + 1]))
  {
    assert LookupSteps(d, ips[..n + 1]) == LookupSteps(d, ips[..n]) + [SeedLookup(d, ips[n], false)];
  }

  /** One more slot. */
  lemma SeedStepsNext(logged: seq<Enforcement.Step>, more: seq<Enforcement.Step>,
                      domains: seq<string>, results: Slots, n: nat)
    requires |domains| == |results| && n < |results|
    requires UpToFaults(logged, SeedSteps(domains[..n], results[..n]))
    requires UpToFaults(more, LookupSteps(domains[n], AnswerIn(results[n])))
    ensures UpToFaults(logged + more, SeedSteps(domains[..n + 1], results[..n + 1]))
  {
    assert domains[..n + 1][..n] == domains[..n] && results[..n + 1][..n] == results[..n];
    UpToFaultsConcat(logged, more, SeedSteps(domains[..n], results[..n]),
                     LookupSteps(domains[n], AnswerIn(results[n])));
  }

  lemma RefusedIsCounted(s: Setup, steps: seq<Enforcement.Step>, k: nat)
    requires k < |steps| && steps[k].SeedLookup? && steps[k].fault
    ensures Run(s, steps).failed > 0
  {
    assert steps[..k + 1][..k] == steps[..k];
    RunGrows(s, steps, k + 1);
  }

  lemma {:induction false} SeedStepsHaveNoFault(domains: seq<string>, results: Slots, i: nat)
    requires |domains| == |results| && i < |SeedSteps(domains, results)|
    ensures SeedSteps(domains, results)[i].SeedLookup? && !SeedSteps(domains, results)[i].fault
  {
    var k := |domains| - 1;
    if i < |SeedSteps(domains[..k], results[..k])| {
      SeedStepsHaveNoFault(domains[..k], results[..k], i);
    }
  }

  /** When no write failed, what was logged is what the slots say, word for word. */
  lemma LoggedExactly(s: Setup, log: seq<Enforcement.Step>, n: nat, domains: seq<string>, results: Slots)
    requires n <= |log| && |domains| == |results| && UpToFaults(log[n..], SeedSteps(domains, results))
    requires Run(s, log).failed == 0
    ensures log == log[..n] + SeedSteps(domains, results)
  {
    forall i | n <= i < |log| ensures log[i] == SeedSteps(domains, results)[i - n] {
      SeedStepsHaveNoFault(domains, results, i - n);
      assert SameWrite(log[n..][i - n], SeedSteps(domains, results)[i - n]);
      if log[i].fault {
        RefusedIsCounted(s, log, i);
      }
    }
    assert log[n..] == SeedSteps(domains, results);
  }

  /** A finished schedule's slots lead to one write for each address that was answered. */
  lemma PoolSeeds(domains: seq<string>, moves: seq<Move>, answer: string -> LookupAnswer, results: Slots,
                  logged: seq<Enforcement.Step>, d: string, ip: IP)
    requires Finishes(domains, moves, answer, results)
    requires |domains| == |results| && UpToFaults(logged, SeedSteps(domains, results))
    ensures (SeedLookup(d, ip, false) in logged || SeedLookup(d, ip, true) in logged)
       <==> Seeds(domains, answer, SeedLookup(d, ip, false))
  {
    var wanted, x := SeedSteps(domains, results), SeedLookup(d, ip, false);
    FinishedIsAnswered(domains, moves, answer, results);
    SeedStepsMeaning(domains, results, answer, x);
    if x in wanted {
      var i :| 0 <= i < |wanted| && wanted[i] == x;
      assert SameWrite(logged[i], wanted[i]);
      assert logged[i] in logged;
    }
    if SeedLookup(d, ip, false) in logged || SeedLookup(d, ip, true) in logged {
      var i :| 0 <= i < |logged| && logged[i].SeedLookup? && logged[i].domain == d && logged[i].ip == ip;
      assert SameWrite(logged[i], wanted[i]);
      SeedStepsHaveNoFault(domains, results, i);
      assert wanted[i] == x;
    }
  }

  // ---------------------------------------------------------------- two whole startups

  /** Steps of a startup before its lookups are written. */
  ghost predicate BeforeLookups(steps: seq<Enforcement.Step>) {
    forall x :: x in steps ==> !x.SeedLookup? && !x.Response?
  }

  predicate IsPolicyKey(s: Setup, p: Prefix) {
    || (exists t :: t in s.engine.allowedIP && p == HostPrefix(s.engine.allowedIP[t]))
    || (exists net :: net in s.engine.cidrs && p == NetPrefix(net))
  }

  /** They ask for the keys of the policy's addresses and ranges and for no others. */
  lemma PolicyKeysAsked(s: Setup, steps: seq<Enforcement.Step>, p: Prefix)
    requires BeforeLookups(steps) && SeedingDone(s, steps) && forall x :: x in steps ==> Legit(s, x)
    ensures Asked(s, steps, p) <==> IsPolicyKey(s, p)
  {
    if Asked(s, steps, p) {
      var step :| step in steps && Contributes(s, step, p);
      LegitIsPolicyKey(s, step, p);
    }
    if t :| t in s.engine.allowedIP && p == HostPrefix(s.engine.allowedIP[t]) {
      var ip := s.engine.allowedIP[t];
      assert IPTried(steps, ip);
      assert Contributes(s, SeedIP(ip, SeedIP(ip, true) in steps), p);
    }
    if net :| net in s.engine.cidrs && p == NetPrefix(net) {
      assert CIDRTried(steps, net);
      assert Contributes(s, SeedCIDR(net, SeedCIDR(net, true) in steps), p);
    }
  }

  lemma LegitIsPolicyKey(s: Setup, step: Enforcement.Step, p: Prefix)
    requires Legit(s, step) && Contributes(s, step, p) && !step.SeedLookup? && !step.Response?
    ensures IsPolicyKey(s, p)
  {
    match step
    case SeedIP(ip, _) =>
      var t :| t in s.engine.allowedIP && s.engine.allowedIP[t] == ip;
    case SeedCIDR(net, _) =>
  }

  /** A startup that wrote everything: first the policy, then the slots of a finished schedule. */
  ghost predicate IsStartup(s: Setup, log: seq<Enforcement.Step>, n: nat, domains: seq<string>, moves: seq<Move>,
                            answer: string -> LookupAnswer, results: Slots)
  {
    && n <= |log| && (forall x :: x in log ==> Legit(s, x))
    && BeforeLookups(log[..n]) && SeedingDone(s, log[..n])
    && |results| == |domains| && Finishes(domains, moves, answer, results)
    && UpToFaults(log[n..], SeedSteps(domains, results))
    && Run(s, log).failed == 0
  }

  /**
   * Two whole startups for the same policy and the same lookup answers, however their tables
   * were iterated and their workers scheduled, end with the same tries when no write failed.
   */
  lemma StartupsAgree(s: Setup, answer: string -> LookupAnswer,
                      la: seq<Enforcement.Step>, na: nat, da: seq<string>, a: seq<Move>, ra: Slots,
                      lb: seq<Enforcement.Step>, nb: nat, db: seq<string>, b: seq<Move>, rb: Slots)
    requires IsStartup(s, la, na, da, a, answer, ra) && IsStartup(s, lb, nb, db, b, answer, rb)
    requires forall d :: d in da <==> d in db
    ensures Run(s, la).maps.ips4 == Run(s, lb).maps.ips4 && Run(s, la).maps.ips6 == Run(s, lb).maps.ips6
  {
    LoggedExactly(s, la, na, da, ra);
    LoggedExactly(s, lb, nb, db, rb);
    forall p ensures Asked(s, la[..na], p) <==> Asked(s, lb[..nb], p) {
      PolicyKeysAsked(s, la[..na], p);
      PolicyKeysAsked(s, lb[..nb], p);
    }
    SeedingIsDeterministic(s, answer, la[..na], da, a, ra, lb[..nb], db, b, rb);
  }
}
