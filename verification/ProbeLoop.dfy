/** The probe loop of the diagnostic run: a frontier of the topK smallest upper
    bounds, frozen at the start of each cluster, against which every candidate is
    classified in up to two stages. */
module ProbeLoop {
  import opened Bits
  import opened OrderStats
  import opened TopKHeap

  datatype ResultClass = SafeIn | SafeOut | Uncertain

  /** A cluster member as the loop sees it: its exact distance and the estimates
      and first-stage margin the RaBitQ estimator supplies for it. */
  datatype Candidate = Candidate(row: nat, exact: real, est1: real, margin1: real, est2: real, isTrueTopK: bool)

  type Cluster = seq<Candidate>

  datatype Config = Config(topK: nat, bits: nat, safeinDk: real) {
    // topK == 0 reads the front of an empty heap; bits == 0 shifts by -1
    predicate Valid() {
      1 <= topK && 1 <= bits
    }
  }

  /** The topK-th smallest upper bound seen so far, or +infinity before there are
      topK of them. */
  datatype Frontier = Infinite | Upper(upper: real)

  datatype EstimateHeapEntry = EstimateHeapEntry(distance: real, errorBound: real, row: nat) {
    function UpperBound(): real {
      distance + errorBound
    }
  }

  const ByUpperBound: EstimateHeapEntry -> real := (e: EstimateHeapEntry) => e.UpperBound()

  /** 1u << (bits - 1): what the second stage divides the margin by. */
  function MarginDivisor(bits: nat): (r: real)
    requires 1 <= bits
    ensures 1.0 <= r
  {
    Shl(1, bits - 1) as real
  }

  /** SafeOut is tested first and compares the candidate's lower bound with the
      frontier; SafeIn compares its upper bound with the calibrated distance. */
  function ClassifyAdaptive(est: real, margin: real, frontier: Frontier, safeinDk: real): ResultClass {
    if frontier.Upper? && est > frontier.upper + margin then SafeOut
    else if est < safeinDk - margin then SafeIn
    else Uncertain
  }

  /** What the loop records about one candidate. est and margin are those of the
      stage that decided it. */
  datatype Decision = Decision(s1: ResultClass, stage2: bool, s2: ResultClass, final: ResultClass, est: real, margin: real)

  function Decide(c: Candidate, frontier: Frontier, cfg: Config): Decision
    requires cfg.Valid()
  {
    var s1 := ClassifyAdaptive(c.est1, c.margin1, frontier, cfg.safeinDk);
    if s1 == Uncertain && cfg.bits > 1 then
      var margin2 := c.margin1 / MarginDivisor(cfg.bits);
      var s2 := ClassifyAdaptive(c.est2, margin2, frontier, cfg.safeinDk);
      Decision(s1, true, s2, s2, c.est2, margin2)
    else
      Decision(s1, false, Uncertain, s1, c.est1, c.margin1)
  }

  /** The second stage runs exactly for what the first leaves uncertain, when there is
      more than one bit.  The estimate that decides is that of the last stage run; its
      margin is the candidate's, divided by two for every bit beyond the first. */
  lemma {:induction false} DecidingStage(c: Candidate, frontier: Frontier, cfg: Config)
    requires cfg.Valid()
    ensures var d := Decide(c, frontier, cfg);
      && d.s1 == ClassifyAdaptive(c.est1, c.margin1, frontier, cfg.safeinDk)
      && (d.stage2 <==> d.s1 == Uncertain && 2 <= cfg.bits)
      && d.final == (if d.stage2 then d.s2 else d.s1) && (!d.stage2 ==> d.s2 == Uncertain)
      && d.final == ClassifyAdaptive(d.est, d.margin, frontier, cfg.safeinDk)
      && (if d.stage2 then d.est == c.est2 && d.margin * Pow2(cfg.bits - 1) as real == c.margin1
          else d.est == c.est1 && d.margin == c.margin1)
  {
    Pow2IsShl(cfg.bits - 1);
    DivideBack(c.margin1, MarginDivisor(cfg.bits));
  }

  lemma {:induction false} DivideBack(a: real, b: real)
    requires 1.0 <= b
    ensures a / b * b == a
  {
  }

  /** An estimate is SafeOut when all it allows lies beyond the frontier; otherwise
      SafeIn when all it allows lies below the calibrated distance; otherwise neither
      can be told. */
  lemma {:induction false} ClassMeaning(est: real, margin: real, frontier: Frontier, safeinDk: real)
    requires 0.0 <= margin
    ensures var rc := ClassifyAdaptive(est, margin, frontier, safeinDk);
      && (rc == SafeOut <==> frontier.Upper? && forall x | Apart(est, x) <= margin :: frontier.upper < x)
      && (rc == SafeIn <==> rc != SafeOut && forall x | Apart(est, x) <= margin :: x < safeinDk)
  {
    assert Apart(est, est - margin) == margin && Apart(est, est + margin) == margin;
  }

  function Apart(a: real, b: real): real {
    if a < b then b - a else a - b
  }

  /** A row of the per-candidate log. */
  datatype LogRow = LogRow(cand: Candidate, frontier: Frontier, d: Decision)

  function Entry(r: LogRow): EstimateHeapEntry {
    EstimateHeapEntry(r.d.est, r.d.margin, r.cand.row)
  }

  /** The rows that were not finally classed SafeOut, in order. */
  function Survivors(log: seq<LogRow>): (r: seq<LogRow>)
    ensures forall x :: x in r ==> x in log && x.d.final != SafeOut
  {
    if log == [] then []
    else
      var rest, last := Survivors(log[..|log|-1]), log[|log|-1];
      if last.d.final == SafeOut then rest else rest + [last]
  }

  function Entries(rows: seq<LogRow>): (r: seq<EstimateHeapEntry>)
    ensures |r| == |rows|
  {
    seq(|rows|, i requires 0 <= i < |rows| => Entry(rows[i]))
  }

  function UpperBounds(rows: seq<LogRow>): seq<real> {
    Keys(Entries(rows), ByUpperBound)
  }

  /** The frontier after a log, defined without a heap: the topK-th smallest
      upper bound among all survivors. */
  function FrontierOf(log: seq<LogRow>, topK: nat): Frontier
    requires 1 <= topK
  {
    var uppers := UpperBounds(Survivors(log));
    if |uppers| < topK then Infinite else Upper(Sort(uppers)[topK-1])
  }

  /** One cluster, all of it classified against the same frontier. */
  function ClusterLog(members: Cluster, frontier: Frontier, cfg: Config): (r: seq<LogRow>)
    requires cfg.Valid()
    ensures |r| == |members|
  {
    seq(|members|, i requires 0 <= i < |members| => LogRow(members[i], frontier, Decide(members[i], frontier, cfg)))
  }

  /** The log of a query over its probed clusters, in probe order. */
  function QueryLog(clusters: seq<Cluster>, cfg: Config): seq<LogRow>
    requires cfg.Valid()
  {
    if clusters == [] then []
    else
      var before := QueryLog(clusters[..|clusters|-1], cfg);
      before + ClusterLog(clusters[|clusters|-1], FrontierOf(before, cfg.topK), cfg)
  }

  /** The log of a whole run; every query starts with an empty frontier. */
  function RunLog(queries: seq<seq<Cluster>>, cfg: Config): seq<LogRow>
    requires cfg.Valid()
  {
    if queries == [] then []
    else RunLog(queries[..|queries|-1], cfg) + QueryLog(queries[|queries|-1], cfg)
  }

  // ----- run counters -----

  predicate IsTrueTopK(r: LogRow) { r.cand.isTrueTopK }
  predicate S1SafeIn(r: LogRow) { r.d.s1 == SafeIn }
  predicate S1SafeOut(r: LogRow) { r.d.s1 == SafeOut }
  predicate S1Uncertain(r: LogRow) { r.d.s1 == Uncertain }
  predicate Stage2(r: LogRow) { r.d.stage2 }
  predicate S2SafeIn(r: LogRow) { r.d.stage2 && r.d.s2 == SafeIn }
  predicate S2SafeOut(r: LogRow) { r.d.stage2 && r.d.s2 == SafeOut }
  predicate S2Uncertain(r: LogRow) { r.d.stage2 && r.d.s2 == Uncertain }
  predicate FinalSafeIn(r: LogRow) { r.d.final == SafeIn }
  predicate FinalSafeOut(r: LogRow) { r.d.final == SafeOut }
  predicate FinalUncertain(r: LogRow) { r.d.final == Uncertain }
  predicate FinalFalseSafeOut(r: LogRow) { r.d.final == SafeOut && r.cand.isTrueTopK }

  datatype ClassCounts = ClassCounts(safeIn: nat, safeOut: nat, uncertain: nat) {
    function Add(rc: ResultClass): ClassCounts {
      match rc
      case SafeIn => this.(safeIn := safeIn + 1)
      case SafeOut => this.(safeOut := safeOut + 1)
      case Uncertain => this.(uncertain := uncertain + 1)
    }
  }

  datatype SummaryStats = SummaryStats(
    candidates: nat, stage2Candidates: nat, trueTopKCandidates: nat, finalFalseSafeOut: nat,
    s1: ClassCounts, s2: ClassCounts, final: ClassCounts)
  {
    /** Every counter is the number of log rows it is named after. */
    ghost predicate Counts(log: seq<LogRow>) {
      && candidates == |log|
      && stage2Candidates == CountIf(log, Stage2)
      && trueTopKCandidates == CountIf(log, IsTrueTopK)
      && finalFalseSafeOut == CountIf(log, FinalFalseSafeOut)
      && s1 == ClassCounts(CountIf(log, S1SafeIn), CountIf(log, S1SafeOut), CountIf(log, S1Uncertain))
      && s2 == ClassCounts(CountIf(log, S2SafeIn), CountIf(log, S2SafeOut), CountIf(log, S2Uncertain))
      && final == ClassCounts(CountIf(log, FinalSafeIn), CountIf(log, FinalSafeOut), CountIf(log, FinalUncertain))
    }

    /** The counters after one more row. */
    function Bump(r: LogRow): SummaryStats {
      SummaryStats(
        candidates + 1,
        stage2Candidates + (if r.d.stage2 then 1 else 0),
        trueTopKCandidates + (if r.cand.isTrueTopK then 1 else 0),
        finalFalseSafeOut + (if FinalFalseSafeOut(r) then 1 else 0),
        s1.Add(r.d.s1),
        if r.d.stage2 then s2.Add(r.d.s2) else s2,
        final.Add(r.d.final))
    }
  }

  const NO_STATS := SummaryStats(0, 0, 0, 0, ClassCounts(0, 0, 0), ClassCounts(0, 0, 0), ClassCounts(0, 0, 0))

  function Tally(log: seq<LogRow>): SummaryStats {
    if log == [] then NO_STATS else Tally(log[..|log|-1]).Bump(log[|log|-1])
  }

  lemma {:induction false} TallyCounts(log: seq<LogRow>)
    ensures Tally(log).Counts(log)
  {
    if log != [] {
      TallyCounts(log[..|log|-1]);
    }
  }

  lemma {:induction false} TallyAppend(earlier: seq<LogRow>, log: seq<LogRow>, row: LogRow)
    ensures Tally(earlier + (log + [row])) == Tally(earlier + log).Bump(row)
  {
    var whole := earlier + (log + [row]);
    assert whole[..|whole|-1] == earlier + log;
  }

  /** Classifies one candidate, updating the counters on the way. */
  method ProbeCandidate(c: Candidate, frontier: Frontier, cfg: Config, stats: SummaryStats)
    returns (row: LogRow, stats': SummaryStats)
    requires cfg.Valid()
    ensures row == LogRow(c, frontier, Decide(c, frontier, cfg))
    ensures stats' == stats.Bump(row)
  {
    var s1 := ClassifyAdaptive(c.est1, c.margin1, frontier, cfg.safeinDk);
    var final := s1;
    var stage2, s2, est, margin := false, Uncertain, c.est1, c.margin1;
    stats' := stats.(candidates := stats.candidates + 1);
    if c.isTrueTopK {
      stats' := stats'.(trueTopKCandidates := stats'.trueTopKCandidates + 1);
    }
    stats' := stats'.(s1 := stats'.s1.Add(s1));
    if s1 == Uncertain && cfg.bits > 1 {
      stage2, est, margin := true, c.est2, c.margin1 / MarginDivisor(cfg.bits);
      s2 := ClassifyAdaptive(est, margin, frontier, cfg.safeinDk);
      final := s2;
      stats' := stats'.(stage2Candidates := stats'.stage2Candidates + 1, s2 := stats'.s2.Add(s2));
    }
    stats' := stats'.(final := stats'.final.Add(final));
    if final == SafeOut && c.isTrueTopK {
      stats' := stats'.(finalFalseSafeOut := stats'.finalFalseSafeOut + 1);
    }
    row := LogRow(c, frontier, Decision(s1, stage2, s2, final, est, margin));
  }

  /** The heap has been offered the survivors' entries and nothing else. */
  ghost predicate Tracks(heap: TopKHeap<EstimateHeapEntry>, log: seq<LogRow>, cfg: Config)
    reads heap, heap.data
  {
    && heap.Valid()
    && heap.k == cfg.topK
    && heap.key == ByUpperBound
    && heap.offered == Entries(Survivors(log))
  }

  method ReadFrontier(heap: TopKHeap<EstimateHeapEntry>, cfg: Config, ghost log: seq<LogRow>) returns (f: Frontier)
    requires cfg.Valid() && Tracks(heap, log, cfg)
    ensures f == FrontierOf(log, cfg.topK)
  {
    if heap.len >= cfg.topK {
      RootOfFull(heap.data[..heap.len], heap.dropped, heap.offered, heap.k, heap.key);
      f := Upper(heap.data[0].UpperBound());
    } else {
      f := Infinite;
    }
  }

  lemma {:induction false} SurvivorsAppend(log: seq<LogRow>, row: LogRow)
    ensures Survivors(log + [row]) == if row.d.final == SafeOut then Survivors(log) else Survivors(log) + [row]
    ensures Entries(Survivors(log + [row])) ==
      if row.d.final == SafeOut then Entries(Survivors(log)) else Entries(Survivors(log)) + [Entry(row)]
  {
    assert (log + [row])[..|log|] == log;
  }

  /** Offers a survivor's deciding-stage bound to the frontier heap. */
  method UpdateFrontier(heap: TopKHeap<EstimateHeapEntry>, row: LogRow, cfg: Config, ghost log: seq<LogRow>)
    requires cfg.Valid() && Tracks(heap, log, cfg)
    modifies heap, heap.data
    ensures Tracks(heap, log + [row], cfg) && heap.data == old(heap.data)
  {
    SurvivorsAppend(log, row);
    if row.d.final != SafeOut {
      var _ := heap.Offer(Entry(row));
    }
  }

  lemma {:induction false} TakeOneMore(log: seq<LogRow>, rows: seq<LogRow>, i: nat)
    requires i < |rows|
    ensures log + rows[..i] + [rows[i]] == log + rows[..i+1]
  {
  }

  /** Classifies one member and feeds the frontier. */
  method ProbeMember(c: Candidate, frontier: Frontier, heap: TopKHeap<EstimateHeapEntry>, cfg: Config,
                     stats: SummaryStats, ghost log: seq<LogRow>, ghost earlier: seq<LogRow>)
    returns (row: LogRow, stats': SummaryStats)
    requires cfg.Valid() && Tracks(heap, log, cfg)
    requires stats == Tally(earlier + log)
    modifies heap, heap.data
    ensures Tracks(heap, log + [row], cfg) && heap.data == old(heap.data)
    ensures row == LogRow(c, frontier, Decide(c, frontier, cfg))
    ensures stats' == Tally(earlier + (log + [row]))
  {
    row, stats' := ProbeCandidate(c, frontier, cfg, stats);
    UpdateFrontier(heap, row, cfg, log);
    TallyAppend(earlier, log, row);
  }

  method ProbeCluster(members: Cluster, heap: TopKHeap<EstimateHeapEntry>, cfg: Config,
                      stats: SummaryStats, log: seq<LogRow>, ghost earlier: seq<LogRow>)
    returns (log': seq<LogRow>, stats': SummaryStats)
    requires cfg.Valid() && Tracks(heap, log, cfg)
    requires stats == Tally(earlier + log)
    modifies heap, heap.data
    ensures Tracks(heap, log', cfg) && heap.data == old(heap.data)
    ensures log' == log + ClusterLog(members, FrontierOf(log, cfg.topK), cfg)
    ensures stats' == Tally(earlier + log')
  {
    hide Tally, Decide, FrontierOf;
    var frontier := ReadFrontier(heap, cfg, log);
    ghost var rows := ClusterLog(members, frontier, cfg);
    log', stats' := log, stats;
    for i := 0 to |members|
      invariant Tracks(heap, log', cfg) && heap.data == old(heap.data)
      invariant log' == log + rows[..i]
      invariant stats' == Tally(earlier + log')
    {
      var row;
      row, stats' := ProbeMember(members[i], frontier, heap, cfg, stats', log', earlier);
      TakeOneMore(log, rows, i);
      log' := log' + [row];
    }
    assert rows[..|members|] == rows;
  }

  lemma {:induction false} QueryLogStep(clusters: seq<Cluster>, rank: nat, cfg: Config)
    requires cfg.Valid() && rank < |clusters|
    ensures var before := QueryLog(clusters[..rank], cfg);
      QueryLog(clusters[..rank+1], cfg) == before + ClusterLog(clusters[rank], FrontierOf(before, cfg.topK), cfg)
  {
    assert clusters[..rank+1][..rank] == clusters[..rank];
  }

  /** The frontier reported after each cluster is that of the log so far. */
  ghost predicate Reported(kth: seq<Frontier>, clusters: seq<Cluster>, cfg: Config)
    requires cfg.Valid()
  {
    && |kth| <= |clusters|
    && forall r :: 0 <= r < |kth| ==> kth[r] == FrontierOf(QueryLog(clusters[..r+1], cfg), cfg.topK)
  }

  /** Reports the frontier after the cluster at this rank. */
  method Report(heap: TopKHeap<EstimateHeapEntry>, clusters: seq<Cluster>, rank: nat, cfg: Config,
                ghost log: seq<LogRow>, kth: seq<Frontier>) returns (kth': seq<Frontier>)
    requires cfg.Valid() && Tracks(heap, log, cfg)
    requires |kth| == rank < |clusters| && Reported(kth, clusters, cfg)
    requires log == QueryLog(clusters[..rank+1], cfg)
    ensures |kth'| == rank + 1 && Reported(kth', clusters, cfg)
  {
    hide FrontierOf, QueryLog;
    var f := ReadFrontier(heap, cfg, log);
    kth' := kth + [f];
  }

  /** One query: the log, and the frontier reported after each cluster. */
  method ProbeQuery(clusters: seq<Cluster>, cfg: Config, stats: SummaryStats, ghost earlier: seq<LogRow>)
    returns (log: seq<LogRow>, kth: seq<Frontier>, stats': SummaryStats)
    requires cfg.Valid() && stats == Tally(earlier)
    ensures log == QueryLog(clusters, cfg)
    ensures |kth| == |clusters| && Reported(kth, clusters, cfg)
    ensures stats' == Tally(earlier + log)
  {
    var heap := new TopKHeap<EstimateHeapEntry>(cfg.topK, ByUpperBound);
    log, kth, stats' := [], [], stats;
    assert earlier + log == earlier;
    for rank := 0 to |clusters|
      invariant fresh(heap) && fresh(heap.data)
      invariant Tracks(heap, log, cfg)
      invariant log == QueryLog(clusters[..rank], cfg)
      invariant |kth| == rank && Reported(kth, clusters, cfg)
      invariant stats' == Tally(earlier + log)
    {
      QueryLogStep(clusters, rank, cfg);
      log, stats' := ProbeCluster(clusters[rank], heap, cfg, stats', log, earlier);
      kth := Report(heap, clusters, rank, cfg, log, kth);
    }
    assert clusters[..|clusters|] == clusters;
  }

  /** The whole run: counters accumulate over all queries. */
  method ProbeRun(queries: seq<seq<Cluster>>, cfg: Config) returns (log: seq<LogRow>, stats: SummaryStats)
    requires cfg.Valid()
    ensures log == RunLog(queries, cfg)
    ensures stats.Counts(log)
  {
    log, stats := [], NO_STATS;
    for q := 0 to |queries|
      invariant log == RunLog(queries[..q], cfg)
      invariant stats == Tally(log)
    {
      assert queries[..q+1][..q] == queries[..q];
      var queryLog, _, stats' := ProbeQuery(queries[q], cfg, stats, log);
      log, stats := log + queryLog, stats';
    }
    assert queries[..|queries|] == queries;
    TallyCounts(log);
  }
}
