/** What the probe loop's pruning promises: as long as every estimate lies within
    its margin, discarding SafeOut candidates never changes the exact top-k. */
module PrunedSearch {
  import opened Bits
  import opened OrderStats
  import opened TopKHeap
  import opened ResultCollector
  import opened ProbeLoop

  function Exacts(rows: seq<LogRow>): (r: seq<real>)
    ensures |r| == |rows|
  {
    seq(|rows|, i requires 0 <= i < |rows| => rows[i].cand.exact)
  }

  /** The exact distances of the rows that were not finally classed SafeOut. */
  function SurvivorExacts(log: seq<LogRow>): seq<real> {
    if log == [] then []
    else
      var rest, last := SurvivorExacts(log[..|log|-1]), log[|log|-1];
      if last.d.final == SafeOut then rest else rest + [last.cand.exact]
  }

  lemma {:induction false} ExactsOfSurvivors(log: seq<LogRow>)
    ensures Exacts(Survivors(log)) == SurvivorExacts(log)
  {
    if log != [] {
      ExactsOfSurvivors(log[..|log|-1]);
    }
  }

  lemma {:induction false} SurvivorExactsConcat(a: seq<LogRow>, b: seq<LogRow>)
    ensures SurvivorExacts(a + b) == SurvivorExacts(a) + SurvivorExacts(b)
  {
    if b == [] {
      assert a + b == a;
    } else {
      var n := |b| - 1;
      assert (a + b)[..|a + b|-1] == a + b[..n];
      SurvivorExactsConcat(a, b[..n]);
    }
  }

  lemma {:induction false} CountBelowSnoc(s: seq<real>, v: real, x: real)
    ensures CountBelow(s + [v], x) == CountBelow(s, x) + if v < x then 1 else 0
  {
    CountBelowConcat(s, [v], x);
    assert [v][1..] == [];
  }

  /** The exact distances of everything probed, pruned or not. */
  function AllExacts(clusters: seq<Cluster>): seq<real> {
    if clusters == [] then []
    else AllExacts(clusters[..|clusters|-1]) + MemberExacts(clusters[|clusters|-1])
  }

  function MemberExacts(members: Cluster): (r: seq<real>)
    ensures |r| == |members|
  {
    seq(|members|, i requires 0 <= i < |members| => members[i].exact)
  }

  /** The estimator keeps its promise to a candidate at a stage: the first estimate is
      off by at most the margin, the second by at most the margin over 2^(bits-1). */
  predicate SoundStage(c: Candidate, stage2: bool, cfg: Config)
    requires cfg.Valid()
  {
    if stage2 then Apart(c.est2, c.exact) * Pow2(cfg.bits - 1) as real <= c.margin1
    else Apart(c.est1, c.exact) <= c.margin1
  }

  /** The error bound the classification relies on: sound at the stage that decided. */
  predicate WithinMargin(r: LogRow, cfg: Config)
    requires cfg.Valid()
  {
    SoundStage(r.cand, r.d.stage2, cfg)
  }

  ghost predicate AllWithinMargin(log: seq<LogRow>, cfg: Config)
    requires cfg.Valid()
  {
    forall i :: 0 <= i < |log| ==> WithinMargin(log[i], cfg)
  }

  /** Both estimates of every probed candidate are sound, as far as they are used. */
  ghost predicate SoundEstimates(clusters: seq<Cluster>, cfg: Config)
    requires cfg.Valid()
  {
    forall i, j :: 0 <= i < |clusters| && 0 <= j < |clusters[i]| ==>
      SoundStage(clusters[i][j], false, cfg) && (2 <= cfg.bits ==> SoundStage(clusters[i][j], true, cfg))
  }

  lemma {:induction false} SoundEstimatesSuffice(clusters: seq<Cluster>, cfg: Config)
    requires cfg.Valid() && SoundEstimates(clusters, cfg)
    ensures AllWithinMargin(QueryLog(clusters, cfg), cfg)
  {
    hide SoundStage, Decide;
    if clusters != [] {
      var n := |clusters| - 1;
      var before := QueryLog(clusters[..n], cfg);
      var frontier := FrontierOf(before, cfg.topK);
      forall i, j | 0 <= i < n && 0 <= j < |clusters[..n][i]|
        ensures SoundStage(clusters[..n][i][j], false, cfg) && (2 <= cfg.bits ==> SoundStage(clusters[..n][i][j], true, cfg))
      {
        assert clusters[..n][i] == clusters[i];
      }
      SoundEstimatesSuffice(clusters[..n], cfg);
      forall j | 0 <= j < |clusters[n]| ensures WithinMargin(ClusterLog(clusters[n], frontier, cfg)[j], cfg) {
        DecidingStage(clusters[n][j], frontier, cfg);
      }
    }
  }

  /** Sound at the deciding stage, the exact distance is within the recorded margin. */
  lemma {:induction false} RecordedMargin(r: LogRow, cfg: Config)
    requires cfg.Valid() && WithinMargin(r, cfg) && r.d == Decide(r.cand, r.frontier, cfg)
    ensures r.d.est - r.d.margin <= r.cand.exact <= r.d.est + r.d.margin
  {
    hide Decide, ClassifyAdaptive;
    DecidingStage(r.cand, r.frontier, cfg);
    if r.d.stage2 {
      ScaledDown(Apart(r.d.est, r.cand.exact), r.d.margin, Pow2(cfg.bits - 1) as real);
    }
  }

  lemma {:induction false} ScaledDown(a: real, b: real, c: real)
    requires 1.0 <= c && a * c <= b * c
    ensures a <= b
  {
    if b < a {
      ScaledUp(a, b, c);
    }
  }

  lemma {:induction false} ScaledUp(a: real, b: real, c: real)
    requires 1.0 <= c && b < a
    ensures b * c < a * c
  {
    assert a * c == b * c + (a - b) * c;
  }

  // ----- counting survivors -----

  lemma {:induction false} CountBelowPointwise(a: seq<real>, b: seq<real>, x: real)
    requires |a| == |b| && forall i :: 0 <= i < |a| ==> a[i] <= b[i]
    ensures CountBelow(b, x) <= CountBelow(a, x)
  {
    if a != [] {
      CountBelowPointwise(a[1..], b[1..], x);
    }
  }

  lemma {:induction false} SurvivorsConcat(a: seq<LogRow>, b: seq<LogRow>)
    ensures Survivors(a + b) == Survivors(a) + Survivors(b)
  {
    if b == [] {
      assert a + b == a;
    } else {
      var n := |b| - 1;
      assert (a + b)[..|a + b|-1] == a + b[..n];
      SurvivorsConcat(a, b[..n]);
    }
  }

  lemma {:induction false} CountBelowGrows(a: seq<LogRow>, b: seq<LogRow>, x: real)
    ensures CountBelow(SurvivorExacts(a), x) <= CountBelow(SurvivorExacts(a + b), x)
  {
    SurvivorExactsConcat(a, b);
    CountBelowConcat(SurvivorExacts(a), SurvivorExacts(b), x);
  }

  lemma {:induction false} CountBelowPrefix(log: seq<LogRow>, p: nat, i: nat, x: real)
    requires p <= i <= |log|
    ensures CountBelow(SurvivorExacts(log[..p]), x) <= CountBelow(SurvivorExacts(log[..i]), x)
  {
    assert log[..i] == log[..p] + log[p..i];
    CountBelowGrows(log[..p], log[p..i], x);
  }

  /** A candidate beyond the frontier has topK survivors strictly closer. */
  lemma {:induction false} BeyondFrontier(log: seq<LogRow>, cfg: Config, x: real)
    requires cfg.Valid() && AllWithinMargin(log, cfg) && AllDecided(log, cfg)
    requires FrontierOf(log, cfg.topK).Upper? && FrontierOf(log, cfg.topK).upper < x
    ensures CountBelow(SurvivorExacts(log), x) >= cfg.topK
  {
    ExactsOfSurvivors(log);
    var rows := Survivors(log);
    var uppers := UpperBounds(rows);
    KthSmallestBelow(uppers, cfg.topK, x);
    forall i | 0 <= i < |rows| ensures Exacts(rows)[i] <= uppers[i] {
      assert rows[i] in log;
      RecordedMargin(rows[i], cfg);
    }
    CountBelowPointwise(Exacts(rows), uppers, x);
  }

  // ----- every row was judged against the frontier of an earlier prefix -----

  lemma {:induction false} JudgedAgainst(clusters: seq<Cluster>, cfg: Config, i: nat) returns (p: nat)
    requires cfg.Valid() && i < |QueryLog(clusters, cfg)|
    ensures var log := QueryLog(clusters, cfg);
      p <= i && log[i].frontier == FrontierOf(log[..p], cfg.topK)
        && log[i].d == Decide(log[i].cand, log[i].frontier, cfg)
  {
    var log := QueryLog(clusters, cfg);
    var before := QueryLog(clusters[..|clusters|-1], cfg);
    if i < |before| {
      p := JudgedAgainst(clusters[..|clusters|-1], cfg, i);
      assert log[..p] == before[..p];
    } else {
      p := |before|;
      assert log[..p] == before;
    }
  }

  /** The survivors before row i that are strictly closer than row i. */
  function Beaters(log: seq<LogRow>, i: nat): set<nat>
    requires i < |log|
  {
    set j: nat | j < i && log[j].d.final != SafeOut && log[j].cand.exact < log[i].cand.exact
  }

  function CloserSurvivors(log: seq<LogRow>, x: real): set<nat> {
    set j: nat | j < |log| && log[j].d.final != SafeOut && log[j].cand.exact < x
  }

  lemma {:induction false} CountCloserSurvivors(log: seq<LogRow>, x: real)
    ensures |CloserSurvivors(log, x)| == CountBelow(SurvivorExacts(log), x)
  {
    if log != [] {
      var n := |log| - 1;
      var init, last := log[..n], log[n];
      CountCloserSurvivors(init, x);
      if last.d.final != SafeOut {
        CountBelowSnoc(SurvivorExacts(init), last.cand.exact, x);
      }
      CloserSurvivorsStep(log, x);
    }
  }

  lemma {:induction false} CloserSurvivorsStep(log: seq<LogRow>, x: real)
    requires log != []
    ensures var n := |log| - 1;
      |CloserSurvivors(log, x)| == |CloserSurvivors(log[..n], x)| +
        if log[n].d.final != SafeOut && log[n].cand.exact < x then 1 else 0
  {
    var n := |log| - 1;
    if log[n].d.final != SafeOut && log[n].cand.exact < x {
      assert CloserSurvivors(log, x) == CloserSurvivors(log[..n], x) + {n};
    } else {
      assert CloserSurvivors(log, x) == CloserSurvivors(log[..n], x);
    }
  }

  /** Pruning never loses a neighbour: whatever is finally classed SafeOut already
      has at least topK distinct earlier survivors strictly closer to the query. */
  lemma {:induction false} SafeOutIsBeaten(clusters: seq<Cluster>, cfg: Config, i: nat)
    requires cfg.Valid() && i < |QueryLog(clusters, cfg)|
    requires AllWithinMargin(QueryLog(clusters, cfg), cfg)
    requires QueryLog(clusters, cfg)[i].d.final == SafeOut
    ensures |Beaters(QueryLog(clusters, cfg), i)| >= cfg.topK
  {
    var log := QueryLog(clusters, cfg);
    var x := log[i].cand.exact;
    SafeOutCount(clusters, cfg, i);
    CountCloserSurvivors(log[..i], x);
    assert CloserSurvivors(log[..i], x) == Beaters(log, i);
  }

  lemma {:induction false} SafeOutCount(clusters: seq<Cluster>, cfg: Config, i: nat)
    requires cfg.Valid() && i < |QueryLog(clusters, cfg)|
    requires AllWithinMargin(QueryLog(clusters, cfg), cfg)
    requires QueryLog(clusters, cfg)[i].d.final == SafeOut
    ensures var log := QueryLog(clusters, cfg);
      CountBelow(SurvivorExacts(log[..i]), log[i].cand.exact) >= cfg.topK
  {
    var log := QueryLog(clusters, cfg);
    var p := JudgedAgainst(clusters, cfg, i);
    QueryLogDecided(clusters, cfg);
    SafeOutBeyond(log[i], cfg);
    BeyondFrontier(log[..p], cfg, log[i].cand.exact);
    CountBelowPrefix(log, p, i, log[i].cand.exact);
  }

  /** A SafeOut row whose estimate is within its margin lies beyond the frontier. */
  lemma {:induction false} SafeOutBeyond(r: LogRow, cfg: Config)
    requires cfg.Valid() && WithinMargin(r, cfg) && r.d == Decide(r.cand, r.frontier, cfg)
    requires r.d.final == SafeOut
    ensures r.frontier.Upper? && r.frontier.upper < r.cand.exact
  {
    RecordedMargin(r, cfg);
    DecidingStage(r.cand, r.frontier, cfg);
  }

  // ----- the pruned pipeline returns the brute-force answer -----

  lemma {:induction false} ExactsOfLog(clusters: seq<Cluster>, cfg: Config)
    requires cfg.Valid()
    ensures Exacts(QueryLog(clusters, cfg)) == AllExacts(clusters)
  {
    hide Decide, FrontierOf;
    if clusters != [] {
      ExactsOfLog(clusters[..|clusters|-1], cfg);
      var before := QueryLog(clusters[..|clusters|-1], cfg);
      var rows := ClusterLog(clusters[|clusters|-1], FrontierOf(before, cfg.topK), cfg);
      assert Exacts(before + rows) == Exacts(before) + Exacts(rows);
      assert Exacts(rows) == MemberExacts(clusters[|clusters|-1]);
    }
  }

  /** The candidates of a log, and those of everything probed. */
  function Logged(log: seq<LogRow>): (r: seq<Candidate>)
    ensures |r| == |log|
  {
    seq(|log|, i requires 0 <= i < |log| => log[i].cand)
  }

  function Joined<T>(parts: seq<seq<T>>): seq<T> {
    if parts == [] then [] else parts[0] + Joined(parts[1..])
  }

  lemma {:induction false} JoinedMore<T>(parts: seq<seq<T>>, last: seq<T>)
    ensures Joined(parts + [last]) == Joined(parts) + last
  {
    if parts == [] {
      assert [last][1..] == [];
    } else {
      assert (parts + [last])[1..] == parts[1..] + [last];
      JoinedMore(parts[1..], last);
    }
  }

  lemma {:induction false} LoggedConcat(a: seq<LogRow>, b: seq<LogRow>)
    ensures Logged(a + b) == Logged(a) + Logged(b)
  {
  }

  /** Every probed candidate is logged, once and in probe order. */
  lemma {:induction false} QueryLogged(clusters: seq<Cluster>, cfg: Config)
    requires cfg.Valid()
    ensures Logged(QueryLog(clusters, cfg)) == Joined(clusters)
  {
    hide FrontierOf, Decide;
    if clusters != [] {
      var init, last := clusters[..|clusters|-1], clusters[|clusters|-1];
      QueryLogged(init, cfg);
      var before := QueryLog(init, cfg);
      var rows := ClusterLog(last, FrontierOf(before, cfg.topK), cfg);
      LoggedConcat(before, rows);
      assert Logged(rows) == last;
      assert clusters == init + [last];
      JoinedMore(init, last);
    }
  }

  /** Over a whole run as well: query by query, cluster by cluster. */
  lemma {:induction false} RunLogged(queries: seq<seq<Cluster>>, cfg: Config)
    requires cfg.Valid()
    ensures Logged(RunLog(queries, cfg)) == Joined(Joined(queries))
  {
    hide QueryLog;
    if queries != [] {
      var init, last := queries[..|queries|-1], queries[|queries|-1];
      RunLogged(init, cfg);
      QueryLogged(last, cfg);
      LoggedConcat(RunLog(init, cfg), QueryLog(last, cfg));
      assert queries == init + [last];
      JoinedMore(init, last);
      JoinedConcat(Joined(init), last);
    }
  }

  lemma {:induction false} JoinedConcat<T>(a: seq<seq<T>>, b: seq<seq<T>>)
    ensures Joined(a + b) == Joined(a) + Joined(b)
  {
    if a == [] {
      assert a + b == b;
    } else {
      assert (a + b)[1..] == a[1..] + b;
      JoinedConcat(a[1..], b);
    }
  }

  /** The exact distances of the rows finally classed SafeOut. */
  function DroppedExacts(log: seq<LogRow>): seq<real> {
    if log == [] then []
    else
      var rest, last := DroppedExacts(log[..|log|-1]), log[|log|-1];
      if last.d.final == SafeOut then rest + [last.cand.exact] else rest
  }

  lemma {:induction false} SurvivorsAndDropped(log: seq<LogRow>)
    ensures multiset(SurvivorExacts(log)) + multiset(DroppedExacts(log)) == multiset(Exacts(log))
  {
    if log != [] {
      var init, last := log[..|log|-1], log[|log|-1];
      SurvivorsAndDropped(init);
      assert Exacts(log) == Exacts(init) + [last.cand.exact];
      BagAssociative(multiset(SurvivorExacts(init)), multiset(DroppedExacts(init)), multiset{last.cand.exact});
      BagMoveIn(multiset(SurvivorExacts(init)), multiset(DroppedExacts(init)), multiset{last.cand.exact});
    }
  }

  lemma {:induction false} BagMoveIn<T>(a: multiset<T>, b: multiset<T>, x: multiset<T>)
    ensures (a + x) + b == (a + b) + x
  {
  }

  lemma {:induction false} DroppedOrigin(log: seq<LogRow>, y: real) returns (i: nat)
    requires y in DroppedExacts(log)
    ensures i < |log| && log[i].d.final == SafeOut && log[i].cand.exact == y
  {
    var n := |log| - 1;
    if y in DroppedExacts(log[..n]) {
      i := DroppedOrigin(log[..n], y);
    } else {
      i := n;
    }
  }

  /** Reranking only the survivors gives the topK smallest exact distances of
      everything probed. */
  lemma {:induction false} PrunedSearchIsExact(clusters: seq<Cluster>, cfg: Config)
    requires cfg.Valid() && AllWithinMargin(QueryLog(clusters, cfg), cfg)
    ensures Smallest(Exacts(Survivors(QueryLog(clusters, cfg))), cfg.topK) == Smallest(AllExacts(clusters), cfg.topK)
  {
    var log := QueryLog(clusters, cfg);
    SurvivorsAndDropped(log);
    ExactsOfLog(clusters, cfg);
    ExactsOfSurvivors(log);
    forall y | y in DroppedExacts(log) ensures CountBelow(SurvivorExacts(log), y) >= cfg.topK {
      DroppedIsBeaten(clusters, cfg, y);
    }
    DroppingBeatenElements(SurvivorExacts(log), DroppedExacts(log), AllExacts(clusters), cfg.topK);
  }

  lemma {:induction false} DroppedIsBeaten(clusters: seq<Cluster>, cfg: Config, y: real)
    requires cfg.Valid() && AllWithinMargin(QueryLog(clusters, cfg), cfg)
    requires y in DroppedExacts(QueryLog(clusters, cfg))
    ensures CountBelow(SurvivorExacts(QueryLog(clusters, cfg)), y) >= cfg.topK
  {
    var log := QueryLog(clusters, cfg);
    var i := DroppedOrigin(log, y);
    SafeOutCount(clusters, cfg, i);
    CountBelowPrefix(log, i, |log|, y);
    assert log[..|log|] == log;
  }

  // ----- the frontier over a run -----

  predicate NotAbove(a: Frontier, b: Frontier) {
    b.Infinite? || (a.Upper? && a.upper <= b.upper)
  }

  lemma {:induction false} FrontierShrinks(a: seq<LogRow>, b: seq<LogRow>, topK: nat)
    requires 1 <= topK
    ensures NotAbove(FrontierOf(a + b, topK), FrontierOf(a, topK))
  {
    SurvivorsConcat(a, b);
    UpperBoundsConcat(Survivors(a), Survivors(b));
    var ua := UpperBounds(Survivors(a));
    if |ua| >= topK {
      KthOfMore(ua, UpperBounds(Survivors(b)), topK);
    }
  }

  lemma {:induction false} UpperBoundsConcat(a: seq<LogRow>, b: seq<LogRow>)
    ensures UpperBounds(a + b) == UpperBounds(a) + UpperBounds(b)
  {
  }

  lemma {:induction false} KthOfMore(a: seq<real>, b: seq<real>, k: nat)
    requires 1 <= k <= |a|
    ensures Sort(a + b)[k-1] <= Sort(a)[k-1]
  {
    var g := Sort(a + b)[k-1];
    KthSmallestBelow(a, k, g);
    CountBelowConcat(a, b, g);
    KthSmallestBelow(a + b, k, g);
  }

  lemma {:induction false} QueryLogPrefix(clusters: seq<Cluster>, i: nat, cfg: Config)
    requires cfg.Valid() && i <= |clusters|
    ensures QueryLog(clusters[..i], cfg) <= QueryLog(clusters, cfg)
  {
    if i == |clusters| {
      assert clusters[..i] == clusters;
    } else {
      var init := clusters[..|clusters|-1];
      assert init[..i] == clusters[..i];
      QueryLogPrefix(init, i, cfg);
    }
  }

  /** The frontier reported after each cluster never rises. */
  lemma {:induction false} FrontierNeverRises(kth: seq<Frontier>, clusters: seq<Cluster>, cfg: Config, i: nat, j: nat)
    requires cfg.Valid() && Reported(kth, clusters, cfg) && i <= j < |kth|
    ensures NotAbove(kth[j], kth[i])
  {
    var a, b := QueryLog(clusters[..i+1], cfg), QueryLog(clusters[..j+1], cfg);
    assert clusters[..j+1][..i+1] == clusters[..i+1];
    QueryLogPrefix(clusters[..j+1], i + 1, cfg);
    assert b == a + b[|a|..];
    FrontierShrinks(a, b[|a|..], cfg.topK);
  }

  /** The frontier is +infinity exactly while fewer than topK survivors have been
      seen, and otherwise topK survivors have upper bounds at or below it. */
  lemma {:induction false} FrontierMeaning(log: seq<LogRow>, topK: nat, x: real)
    requires 1 <= topK
    ensures FrontierOf(log, topK).Infinite? <==> |Survivors(log)| < topK
    ensures FrontierOf(log, topK).Upper? ==>
      (FrontierOf(log, topK).upper < x <==> CountBelow(UpperBounds(Survivors(log)), x) >= topK)
  {
    KthSmallestBelow(UpperBounds(Survivors(log)), topK, x);
  }

  // ----- the run counters -----

  ghost predicate AllDecided(log: seq<LogRow>, cfg: Config)
    requires cfg.Valid()
  {
    forall i :: 0 <= i < |log| ==> log[i].d == Decide(log[i].cand, log[i].frontier, cfg)
  }

  /** Conservation: each stage's classes partition the rows it saw, and stage two
      sees exactly the rows stage one left uncertain (when there is a second stage). */
  lemma {:induction false} StagesBalance(log: seq<LogRow>, cfg: Config)
    requires cfg.Valid() && AllDecided(log, cfg)
    ensures CountIf(log, S1SafeIn) + CountIf(log, S1SafeOut) + CountIf(log, S1Uncertain) == |log|
    ensures CountIf(log, Stage2) == if cfg.bits > 1 then CountIf(log, S1Uncertain) else 0
    ensures CountIf(log, S2SafeIn) + CountIf(log, S2SafeOut) + CountIf(log, S2Uncertain) == CountIf(log, Stage2)
  {
    if log != [] {
      StagesBalance(log[..|log|-1], cfg);
    }
  }

  /** The final classes combine both stages, and what is not SafeOut survives. */
  lemma {:induction false} FinalsBalance(log: seq<LogRow>, cfg: Config)
    requires cfg.Valid() && AllDecided(log, cfg)
    ensures CountIf(log, FinalSafeIn) == CountIf(log, S1SafeIn) + CountIf(log, S2SafeIn)
    ensures CountIf(log, FinalSafeOut) == CountIf(log, S1SafeOut) + CountIf(log, S2SafeOut)
    ensures CountIf(log, FinalSafeIn) + CountIf(log, FinalSafeOut) + CountIf(log, FinalUncertain) == |log|
    ensures CountIf(log, FinalSafeOut) + |Survivors(log)| == |log|
  {
    if log != [] {
      FinalsBalance(log[..|log|-1], cfg);
    }
  }

  lemma {:induction false} QueryLogDecided(clusters: seq<Cluster>, cfg: Config)
    requires cfg.Valid()
    ensures AllDecided(QueryLog(clusters, cfg), cfg)
  {
    if clusters != [] {
      QueryLogDecided(clusters[..|clusters|-1], cfg);
    }
  }

  lemma {:induction false} RunLogDecided(queries: seq<seq<Cluster>>, cfg: Config)
    requires cfg.Valid()
    ensures AllDecided(RunLog(queries, cfg), cfg)
  {
    if queries != [] {
      RunLogDecided(queries[..|queries|-1], cfg);
      QueryLogDecided(queries[|queries|-1], cfg);
    }
  }

  /** The counters a whole run reports satisfy the conservation laws. */
  lemma {:induction false} CountersBalance(queries: seq<seq<Cluster>>, cfg: Config, stats: SummaryStats)
    requires cfg.Valid() && stats.Counts(RunLog(queries, cfg))
    ensures stats.candidates == |Joined(Joined(queries))|
    ensures stats.s1.safeIn + stats.s1.safeOut + stats.s1.uncertain == stats.candidates
    ensures stats.stage2Candidates == if cfg.bits > 1 then stats.s1.uncertain else 0
    ensures stats.s2.safeIn + stats.s2.safeOut + stats.s2.uncertain == stats.stage2Candidates
    ensures stats.final.safeIn == stats.s1.safeIn + stats.s2.safeIn
    ensures stats.final.safeOut == stats.s1.safeOut + stats.s2.safeOut
    ensures stats.final.safeIn + stats.final.safeOut + stats.final.uncertain == stats.candidates
  {
    RunLogged(queries, cfg);
    RunLogDecided(queries, cfg);
    StagesBalance(RunLog(queries, cfg), cfg);
    FinalsBalance(RunLog(queries, cfg), cfg);
  }

  /** Margins are sound for one query, and a flagged candidate is one with fewer than
      topK probed candidates strictly closer. */
  ghost predicate SoundlyFlagged(clusters: seq<Cluster>, cfg: Config)
    requires cfg.Valid()
  {
    && AllWithinMargin(QueryLog(clusters, cfg), cfg)
    && forall r :: r in QueryLog(clusters, cfg) && r.cand.isTrueTopK ==>
      CountBelow(AllExacts(clusters), r.cand.exact) < cfg.topK
  }

  lemma {:induction false} NoneWronglyDiscarded(clusters: seq<Cluster>, cfg: Config, i: nat)
    requires cfg.Valid() && SoundlyFlagged(clusters, cfg) && i < |QueryLog(clusters, cfg)|
    ensures !FinalFalseSafeOut(QueryLog(clusters, cfg)[i])
  {
    var log := QueryLog(clusters, cfg);
    if log[i].d.final == SafeOut {
      var x := log[i].cand.exact;
      ExactsOfLog(clusters, cfg);
      SafeOutCount(clusters, cfg, i);
      CountBelowPrefix(log, i, |log|, x);
      assert log[..|log|] == log;
      SurvivorsCountLess(log, x);
      assert log[i] in log;
    }
  }

  lemma {:induction false} NoneInRun(queries: seq<seq<Cluster>>, cfg: Config, i: nat)
    requires cfg.Valid() && i < |RunLog(queries, cfg)|
    requires forall q :: 0 <= q < |queries| ==> SoundlyFlagged(queries[q], cfg)
    ensures !FinalFalseSafeOut(RunLog(queries, cfg)[i])
  {
    hide SoundlyFlagged, QueryLog, FinalFalseSafeOut;
    if queries != [] {
      var n := |queries| - 1;
      var earlier := RunLog(queries[..n], cfg);
      if i < |earlier| {
        NoneInRun(queries[..n], cfg, i);
      } else {
        NoneWronglyDiscarded(queries[n], cfg, i - |earlier|);
      }
    }
  }

  /** No neighbour is ever reported as wrongly discarded: when every query of a run has
      sound margins and flags, the run's false SafeOut counter is zero. */
  lemma {:induction false} NoFalseSafeOut(queries: seq<seq<Cluster>>, cfg: Config, stats: SummaryStats)
    requires cfg.Valid() && stats.Counts(RunLog(queries, cfg))
    requires forall q :: 0 <= q < |queries| ==> SoundlyFlagged(queries[q], cfg)
    ensures stats.finalFalseSafeOut == 0
  {
    hide SoundlyFlagged, QueryLog, RunLog, FinalFalseSafeOut;
    var log := RunLog(queries, cfg);
    forall i | 0 <= i < |log| ensures !FinalFalseSafeOut(log[i]) {
      NoneInRun(queries, cfg, i);
    }
    NoneCounted(log, FinalFalseSafeOut);
  }

  lemma {:induction false} SurvivorsCountLess(log: seq<LogRow>, x: real)
    ensures CountBelow(SurvivorExacts(log), x) <= CountBelow(Exacts(log), x)
  {
    if log != [] {
      var init, last := log[..|log|-1], log[|log|-1];
      SurvivorsCountLess(init, x);
      assert Exacts(log) == Exacts(init) + [last.cand.exact];
      CountBelowSnoc(Exacts(init), last.cand.exact, x);
      CountBelowSnoc(SurvivorExacts(init), last.cand.exact, x);
    }
  }

  // ----- the two stateful halves together -----

  function Offers(rows: seq<LogRow>, addr: nat -> AddressEntry): (r: seq<CollectorEntry>)
    ensures |r| == |rows|
  {
    seq(|rows|, i requires 0 <= i < |rows| => CollectorEntry(rows[i].cand.exact, addr(rows[i].cand.row)))
  }

  /** Probes, reranks the survivors exactly, and finalizes.  Under sound margins the
      distances are those of brute force over everything probed; every result is a
      surviving row with its own distance, and no row is returned more often than it
      survived. */
  method Search(clusters: seq<Cluster>, cfg: Config, addr: nat -> AddressEntry) returns (results: seq<CollectorEntry>)
    requires cfg.Valid()
    ensures SoundEstimates(clusters, cfg) || AllWithinMargin(QueryLog(clusters, cfg), cfg) ==>
      Distances(results) == Smallest(AllExacts(clusters), cfg.topK)
    ensures multiset(results) <= multiset(Offers(Survivors(QueryLog(clusters, cfg)), addr))
    ensures forall e :: e in results ==> exists r ::
      r in Survivors(QueryLog(clusters, cfg)) && e == CollectorEntry(r.cand.exact, addr(r.cand.row))
  {
    var log, kth, stats := ProbeQuery(clusters, cfg, NO_STATS, []);
    var collector := new ResultCollector(cfg.topK);
    Rerank(collector, log, addr);
    ghost var offers := Offers(Survivors(log), addr);
    results := collector.Finalize();
    OffersOrigin(log, addr, results);
    if SoundEstimates(clusters, cfg) {
      SoundEstimatesSuffice(clusters, cfg);
    }
    if AllWithinMargin(log, cfg) {
      PrunedSearchIsExact(clusters, cfg);
    }
  }

  /** Offers every survivor's exact distance to an empty collector. */
  method Rerank(collector: ResultCollector, log: seq<LogRow>, addr: nat -> AddressEntry)
    requires collector.Valid() && 1 <= collector.topK && collector.Offered() == []
    modifies collector.heap, collector.heap.data
    ensures collector.Valid() && collector.heap.data == old(collector.heap.data)
    ensures collector.Offered() == Offers(Survivors(log), addr)
  {
    for i := 0 to |log|
      invariant collector.Valid() && collector.heap.data == old(collector.heap.data)
      invariant collector.Offered() == Offers(Survivors(log[..i]), addr)
    {
      OffersAppend(log, i, addr);
      if log[i].d.final != SafeOut {
        var _ := collector.TryInsert(log[i].cand.exact, addr(log[i].cand.row));
      }
    }
    assert log[..|log|] == log;
  }

  lemma {:induction false} OffersAppend(log: seq<LogRow>, i: nat, addr: nat -> AddressEntry)
    requires i < |log|
    ensures Offers(Survivors(log[..i+1]), addr) ==
      if log[i].d.final == SafeOut then Offers(Survivors(log[..i]), addr)
      else Offers(Survivors(log[..i]), addr) + [CollectorEntry(log[i].cand.exact, addr(log[i].cand.row))]
  {
    assert log[..i+1][..i] == log[..i];
  }

  lemma {:induction false} OffersOrigin(log: seq<LogRow>, addr: nat -> AddressEntry, results: seq<CollectorEntry>)
    requires multiset(results) <= multiset(Offers(Survivors(log), addr))
    ensures Distances(Offers(Survivors(log), addr)) == Exacts(Survivors(log))
    ensures forall e :: e in results ==> exists r ::
      r in Survivors(log) && e == CollectorEntry(r.cand.exact, addr(r.cand.row))
  {
    var rows := Survivors(log);
    var offers := Offers(rows, addr);
    forall e | e in results ensures exists r :: r in rows && e == CollectorEntry(r.cand.exact, addr(r.cand.row)) {
      assert e in multiset(results);
      assert e in offers;
      var i :| 0 <= i < |offers| && offers[i] == e;
      assert rows[i] in rows;
    }
  }
}
