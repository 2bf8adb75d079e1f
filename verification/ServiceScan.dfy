/**
 The choice of an endpoint step by step.  Responses lower the request numbers without the
 lock of `sd_get_optimal_endpoint`, so they may come between any two reads of one scan.
 */
module ServiceScan {
  import opened ServiceDiscovery

  /** `at` endpoints have been looked at; `seen` holds them as they were then. */
  datatype Scan = Resting | Scanning(at: nat, min: real, best: int, seen: Mem)

  datatype State = State(log: Log, scan: Scan)

  datatype Step = Begin | Look | Pick | Answer(p: Addr)

  ghost predicate Enabled(x: State, s: seq<Addr>, a: Step) {
    x.log.stop == Going && Within(x.log.mem, s) &&
    match a
    case Begin => x.scan.Resting?
    case Look => x.scan.Scanning? && x.scan.at < |s|
    case Pick => x.scan.Scanning? && x.scan.at == |s| && x.scan.best < |s|
    case Answer(_) => true
  }

  ghost function Apply(x: State, s: seq<Addr>, a: Step): State
    requires Enabled(x, s, a)
  {
    match a
    case Begin => x.(scan := Scanning(0, INFINITE, -1, x.log.mem))
    case Look => x.(scan := Looked(x.scan, s[x.scan.at], x.log.mem[s[x.scan.at]]))
    case Pick => Picks(x, s)
    case Answer(p) => x.(log := Next(x.log, s, Respond(p)))
  }

  function Looked(c: Scan, p: Addr, e: Endpoint): Scan
    requires c.Scanning?
  {
    var better := e.load != 0 && Ratio(e) < c.min && e.requests < MAX_REQUESTS;
    Scanning(c.at + 1, if better then Ratio(e) else c.min, if better then c.at else c.best, c.seen[p := e])
  }

  /** The request number is raised through the pointer, assigned or not. */
  ghost function Picks(x: State, s: seq<Addr>): State
    requires Enabled(x, s, Pick)
  {
    var l, k := x.log, x.scan.best;
    if k < 0 then x.(log := l.(stop := Unset))
    else State(Log(Counted(l.mem, s[k], 1), l.picks + [s[k]], l.done, l.stop), Resting)
  }

  ghost predicate Possible(x: State, s: seq<Addr>, run: seq<Step>)
    decreases |run|, 0
  {
    if run == [] then Within(x.log.mem, s)
    else
      var n := |run| - 1;
      Possible(x, s, run[..n]) && Enabled(After(x, s, run[..n]), s, run[n])
  }

  ghost function After(x: State, s: seq<Addr>, run: seq<Step>): State
    requires Possible(x, s, run)
    decreases |run|, 1
  {
    if run == [] then x else Apply(After(x, s, run[..|run| - 1]), s, run[|run| - 1])
  }

  // ----- what every step keeps -----

  /** No endpoint has gained requests since it was looked at. */
  ghost predicate Lagging(m: Mem, s: seq<Addr>, c: Scan)
    requires Within(m, s) && c.Scanning? && Within(c.seen, s) && c.at <= |s|
  {
    forall j :: 0 <= j < c.at ==> m[s[j]].load == c.seen[s[j]].load && m[s[j]].requests <= c.seen[s[j]].requests
  }

  ghost predicate Inv(x: State, s: seq<Addr>) {
    && (forall i, j :: 0 <= i < j < |s| ==> s[i] != s[j])
    && Within(x.log.mem, s) && Accounted(x.log.mem, s, x.log.picks, x.log.done)
    && (x.scan.Scanning? ==>
      && x.scan.at <= |s| && Within(x.scan.seen, s)
      && Best(x.scan.seen, s, x.scan.at, x.scan.min, x.scan.best) && Lagging(x.log.mem, s, x.scan))
  }

  lemma LookInv(x: State, s: seq<Addr>)
    requires Inv(x, s) && Enabled(x, s, Look)
    ensures Inv(Apply(x, s, Look), s)
  {
    var c, m := x.scan, x.log.mem;
    var p := s[c.at];
    var seen := c.seen[p := m[p]];
    forall j | 0 <= j < |s| && j != c.at ensures seen[s[j]] == c.seen[s[j]] {
    }
    assert Best(seen, s, c.at, c.min, c.best) by {
      assert forall j :: 0 <= j < c.at ==> s[..c.at][j] == s[j];
    }
    BestNext(seen, s, c.at, c.min, c.best);
  }

  lemma PickInv(x: State, s: seq<Addr>)
    requires Inv(x, s) && Enabled(x, s, Pick)
    ensures Inv(Apply(x, s, Pick), s)
  {
    var m, l := x.log.mem, x.log;
    if x.scan.best >= 0 {
      var p := s[x.scan.best];
      assert m[p].requests < MAX_REQUESTS;
      RaisedOne(m, s, l.picks, l.done, p);
    }
  }

  lemma RaisedOne(m: Mem, s: seq<Addr>, picks: seq<Addr>, done: seq<Addr>, p: Addr)
    requires Within(m, s) && Accounted(m, s, picks, done) && p in m && m[p].requests < MAX_REQUESTS
    ensures Accounted(Counted(m, p, 1), s, picks + [p], done)
  {
  }

  lemma AnswerInv(x: State, s: seq<Addr>, p: Addr)
    requires Inv(x, s) && Enabled(x, s, Answer(p))
    ensures Inv(Apply(x, s, Answer(p)), s)
  {
    var l := x.log;
    if p in s && p in l.mem && l.mem[p].requests > 0 { Answered(l.mem, s, l.picks, l.done, p); }
  }

  lemma StepInv(x: State, s: seq<Addr>, a: Step)
    requires Inv(x, s) && Enabled(x, s, a)
    ensures Inv(Apply(x, s, a), s)
  {
    match a
    case Begin => assert s[..0] == [];
    case Look => LookInv(x, s);
    case Pick => PickInv(x, s);
    case Answer(p) => AnswerInv(x, s, p);
  }

  // ----- whole runs -----

  /** Nothing requested yet. */
  ghost predicate Init(x: State, s: seq<Addr>) {
    && (forall i, j :: 0 <= i < j < |s| ==> s[i] != s[j]) && Within(x.log.mem, s)
    && (forall i :: 0 <= i < |s| ==> x.log.mem[s[i]].requests == 0)
    && x == State(Log(x.log.mem, [], [], Going), Resting)
  }

  lemma {:induction false} RunInv(x: State, s: seq<Addr>, run: seq<Step>)
    requires Inv(x, s) && Possible(x, s, run)
    ensures Inv(After(x, s, run), s)
    decreases |run|
  {
    if run != [] {
      var n := |run| - 1;
      RunInv(x, s, run[..n]);
      StepInv(After(x, s, run[..n]), s, run[n]);
    }
  }

  /** Wherever responses come in between: no endpoint ever has more than 200 requests, each
      has those picked and not answered, and one that is about to be picked is the first of
      the least loaded as they were looked at, and no busier now than then. */
  lemma ScanBound(x: State, s: seq<Addr>, run: seq<Step>)
    requires Init(x, s) && Possible(x, s, run)
    ensures var z := After(x, s, run);
      && Within(z.log.mem, s) && Accounted(z.log.mem, s, z.log.picks, z.log.done)
      && (z.scan.Scanning? && z.scan.at == |s| && z.scan.best >= 0 ==>
        && z.scan.best < |s| && Within(z.scan.seen, s) && Optimal(z.scan.seen, s, s[z.scan.best])
        && z.log.mem[s[z.scan.best]].requests <= z.scan.seen[s[z.scan.best]].requests < 200)
  {
    RunInv(x, s, run);
    assert s[..|s|] == s;
  }

  /** The unassigned pointer is used exactly by a scan that met no endpoint that could be
      chosen when it was looked at. */
  lemma UnsetScan(x: State, s: seq<Addr>, run: seq<Step>)
    requires Init(x, s) && Possible(x, s, run)
    ensures After(x, s, run).log.stop == Unset <==>
      run != [] && run[|run| - 1] == Pick
      && (var y := After(x, s, run[..|run| - 1]); Within(y.scan.seen, s) && NoneEligible(y.scan.seen, s))
  {
    if run != [] {
      RunInv(x, s, run[..|run| - 1]);
      assert s[..|s|] == s;
    }
  }

  // ----- a scan that nothing comes into -----

  /** A scan of `n` endpoints. */
  function Sweep(n: nat): seq<Step> { [Begin] + seq(n, _ => Look) }

  lemma OneMore(x: State, s: seq<Addr>, run: seq<Step>, a: Step)
    requires Possible(x, s, run) && Enabled(After(x, s, run), s, a)
    ensures Possible(x, s, run + [a]) && After(x, s, run + [a]) == Apply(After(x, s, run), s, a)
  {
    assert (run + [a])[..|run|] == run;
  }

  /** A scan of the first `n` endpoints of `x`, which are still as they were seen. */
  ghost predicate Undisturbed(x: State, s: seq<Addr>, n: nat, z: State) {
    && Within(x.log.mem, s) && n <= |s| && z.log == x.log && z.scan.Scanning?
    && z.scan.at == n && z.scan.seen == x.log.mem && Best(x.log.mem, s, n, z.scan.min, z.scan.best)
  }

  lemma LooksOn(x: State, s: seq<Addr>, n: nat, y: State)
    requires x.log.stop == Going && n < |s| && Undisturbed(x, s, n, y)
    ensures Enabled(y, s, Look) && Undisturbed(x, s, n + 1, Apply(y, s, Look))
  {
    var m := x.log.mem;
    BestNext(m, s, n, y.scan.min, y.scan.best);
    assert m[s[n] := m[s[n]]] == m;
  }

  lemma {:induction false} Swept(x: State, s: seq<Addr>, n: nat)
    requires Within(x.log.mem, s) && x.log.stop == Going && x.scan.Resting? && n <= |s|
    ensures Possible(x, s, Sweep(n)) && Undisturbed(x, s, n, After(x, s, Sweep(n)))
  {
    if n == 0 {
      OneMore(x, s, [], Begin);
      assert Sweep(0) == [] + [Begin] && s[..0] == [];
    } else {
      Swept(x, s, n - 1);
      LooksOn(x, s, n - 1, After(x, s, Sweep(n - 1)));
      OneMore(x, s, Sweep(n - 1), Look);
      assert Sweep(n) == Sweep(n - 1) + [Look];
    }
  }

  /** If no response comes in between, a scan is the choice in one step. */
  lemma WholeScan(x: State, s: seq<Addr>)
    requires Within(x.log.mem, s) && x.log.stop == Going && x.scan.Resting?
    ensures Possible(x, s, Sweep(|s|) + [Pick])
    ensures After(x, s, Sweep(|s|) + [Pick]).log == Next(x.log, s, Choose)
  {
    Swept(x, s, |s|);
    OneMore(x, s, Sweep(|s|), Pick);
    assert s[..|s|] == s;
    var c := After(x, s, Sweep(|s|)).scan;
    LeastOptimal(x.log.mem, s);
    if c.best >= 0 {
      assert Optimal(x.log.mem, s, s[c.best]);
      OptimalUnique(x.log.mem, s, s[c.best], s[Least(x.log.mem, s)]);
    }
  }
}
