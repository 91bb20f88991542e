/** Offline replay of the SafeIn threshold over the per-candidate log: the SafeIn
    margin is scaled, the SafeOut margin and the recorded frontier are not. */
module Replay {
  import opened OrderStats
  import opened ProbeLoop

  datatype ReplayRow = ReplayRow(isTrueTopK: bool, stage2: bool, est1: real, est2: real,
                                 margin1: real, margin2: real, safeinDk: real, frontier: Frontier)

  datatype Counts = Counts(safeIn: nat, safeOut: nat, uncertain: nat, falseSafeIn: nat, falseSafeOut: nat) {
    function Add(rc: ResultClass, isTrueTopK: bool): Counts {
      match rc
      case SafeIn => this.(safeIn := safeIn + 1, falseSafeIn := falseSafeIn + if isTrueTopK then 0 else 1)
      case SafeOut => this.(safeOut := safeOut + 1, falseSafeOut := falseSafeOut + if isTrueTopK then 1 else 0)
      case Uncertain => this.(uncertain := uncertain + 1)
    }
  }

  const NO_COUNTS := Counts(0, 0, 0, 0, 0)

  datatype ReplaySummary = ReplaySummary(scale: real, s1: Counts, s2: Counts, final: Counts)

  function ReplayClass(est: real, safeoutMargin: real, safeinMargin: real, frontier: Frontier, safeinDk: real): ResultClass {
    if frontier.Upper? && est > frontier.upper + safeoutMargin then SafeOut
    else if est < safeinDk - safeinMargin then SafeIn
    else Uncertain
  }

  function Class1(r: ReplayRow, scale: real): ResultClass {
    ReplayClass(r.est1, r.margin1, r.margin1 * scale, r.frontier, r.safeinDk)
  }

  function Class2(r: ReplayRow, scale: real): ResultClass {
    ReplayClass(r.est2, r.margin2, r.margin2 * scale, r.frontier, r.safeinDk)
  }

  function FinalClass(r: ReplayRow, scale: real): ResultClass {
    if r.stage2 then Class2(r, scale) else Class1(r, scale)
  }

  /** The summary of the rows at one scale, row by row. */
  function Summary(rows: seq<ReplayRow>, scale: real): ReplaySummary {
    if rows == [] then ReplaySummary(scale, NO_COUNTS, NO_COUNTS, NO_COUNTS)
    else
      var before, r := Summary(rows[..|rows|-1], scale), rows[|rows|-1];
      ReplaySummary(scale,
        before.s1.Add(Class1(r, scale), r.isTrueTopK),
        if r.stage2 then before.s2.Add(Class2(r, scale), r.isTrueTopK) else before.s2,
        before.final.Add(FinalClass(r, scale), r.isTrueTopK))
  }

  method ReplayScale(rows: seq<ReplayRow>, scale: real) returns (summary: ReplaySummary)
    ensures summary == Summary(rows, scale)
  {
    summary := ReplaySummary(scale, NO_COUNTS, NO_COUNTS, NO_COUNTS);
    for i := 0 to |rows|
      invariant summary == Summary(rows[..i], scale)
    {
      var r := rows[i];
      var s1 := ReplayClass(r.est1, r.margin1, r.margin1 * scale, r.frontier, r.safeinDk);
      summary := summary.(s1 := summary.s1.Add(s1, r.isTrueTopK));
      var final := s1;
      if r.stage2 {
        var s2 := ReplayClass(r.est2, r.margin2, r.margin2 * scale, r.frontier, r.safeinDk);
        summary := summary.(s2 := summary.s2.Add(s2, r.isTrueTopK));
        final := s2;
      }
      summary := summary.(final := summary.final.Add(final, r.isTrueTopK));
      assert rows[..i+1][..i] == rows[..i];
    }
    assert rows[..|rows|] == rows;
  }

  method ReplayScales(rows: seq<ReplayRow>, scales: seq<real>) returns (summaries: seq<ReplaySummary>)
    ensures |summaries| == |scales|
    ensures forall i :: 0 <= i < |scales| ==> summaries[i] == Summary(rows, scales[i])
  {
    summaries := [];
    for i := 0 to |scales|
      invariant |summaries| == i
      invariant forall j :: 0 <= j < i ==> summaries[j] == Summary(rows, scales[j])
    {
      var s := ReplayScale(rows, scales[i]);
      summaries := summaries + [s];
    }
  }

  predicate HasStage2(r: ReplayRow) { r.stage2 }

  datatype Column = Stage1Column | Stage2Column | FinalColumn

  /** The class a row has in a column, if it is counted there. */
  predicate Classed(r: ReplayRow, col: Column, scale: real, rc: ResultClass) {
    match col
    case Stage1Column => Class1(r, scale) == rc
    case Stage2Column => r.stage2 && Class2(r, scale) == rc
    case FinalColumn => rc == if r.stage2 then Class2(r, scale) else Class1(r, scale)
  }

  /** Every count is the number of rows it is named after: a SafeIn is false for a row
      that is no true neighbour, a SafeOut for one that is. */
  ghost predicate CountsRows(c: Counts, rows: seq<ReplayRow>, col: Column, scale: real) {
    && c.safeIn == CountIf(rows, (r: ReplayRow) => Classed(r, col, scale, SafeIn))
    && c.safeOut == CountIf(rows, (r: ReplayRow) => Classed(r, col, scale, SafeOut))
    && c.uncertain == CountIf(rows, (r: ReplayRow) => Classed(r, col, scale, Uncertain))
    && c.falseSafeIn == CountIf(rows, (r: ReplayRow) => Classed(r, col, scale, SafeIn) && !r.isTrueTopK)
    && c.falseSafeOut == CountIf(rows, (r: ReplayRow) => Classed(r, col, scale, SafeOut) && r.isTrueTopK)
  }

  /** The summary at one scale, by counting: stage one and the final class over all rows,
      stage two over those that have it. */
  lemma {:induction false} SummaryCounts(rows: seq<ReplayRow>, scale: real)
    ensures CountsRows(Summary(rows, scale).s1, rows, Stage1Column, scale)
    ensures CountsRows(Summary(rows, scale).s2, rows, Stage2Column, scale)
    ensures CountsRows(Summary(rows, scale).final, rows, FinalColumn, scale)
  {
    hide ReplayClass, Class1, Class2;
    if rows != [] {
      SummaryCounts(rows[..|rows|-1], scale);
    }
  }

  /** At every scale the classes of a stage partition the rows counted there. */
  lemma {:induction false} ClassesPartitionRows(rows: seq<ReplayRow>, scale: real)
    ensures var s := Summary(rows, scale);
      && s.s1.safeIn + s.s1.safeOut + s.s1.uncertain == |rows|
      && s.s2.safeIn + s.s2.safeOut + s.s2.uncertain == CountIf(rows, HasStage2)
      && s.final.safeIn + s.final.safeOut + s.final.uncertain == |rows|
  {
    if rows != [] {
      ClassesPartitionRows(rows[..|rows|-1], scale);
    }
  }

  /** More SafeIn (true or false) at b than at a, and the same SafeOut. */
  predicate Loosened(a: Counts, b: Counts) {
    && a.safeIn <= b.safeIn
    && a.falseSafeIn <= b.falseSafeIn
    && a.safeOut == b.safeOut
    && a.falseSafeOut == b.falseSafeOut
    && b.uncertain <= a.uncertain
  }

  /** What lowering the scale may do to one class. */
  predicate Looser(before: ResultClass, after: ResultClass) {
    before == after || (before == Uncertain && after == SafeIn)
  }

  /** Lowering the scale, from any scale to any other, only loosens the stage. */
  ghost predicate Stage1Loosens(r: ReplayRow) {
    forall lower, upper :: lower <= upper ==> Looser(Class1(r, upper), Class1(r, lower))
  }

  ghost predicate Stage2Loosens(r: ReplayRow) {
    forall lower, upper :: lower <= upper ==> Looser(Class2(r, upper), Class2(r, lower))
  }

  /** The stage's margin is not negative, or its SafeOut test decides the row. */
  predicate Stage1Sound(r: ReplayRow) {
    0.0 <= r.margin1 || Class1(r, 0.0) == SafeOut
  }

  predicate Stage2Sound(r: ReplayRow) {
    0.0 <= r.margin2 || Class2(r, 0.0) == SafeOut
  }

  predicate SoundRow(r: ReplayRow) {
    Stage1Sound(r) && (r.stage2 ==> Stage2Sound(r))
  }

  predicate SoundRows(rows: seq<ReplayRow>) {
    forall i :: 0 <= i < |rows| ==> SoundRow(rows[i])
  }

  lemma {:induction false} ScaledMargin(m: real, lower: real, upper: real)
    requires 0.0 <= m && lower <= upper
    ensures m * lower <= m * upper
  {
  }

  lemma {:induction false} LoosenedStep(a: Counts, b: Counts, x: ResultClass, y: ResultClass, t: bool)
    requires Loosened(a, b)
    requires Looser(x, y)
    ensures Loosened(a.Add(x, t), b.Add(y, t))
  {
  }

  /** One classification at two scales. */
  lemma {:induction false} ClassLoosens(est: real, margin: real, frontier: Frontier, safeinDk: real, lower: real, upper: real)
    requires lower <= upper
    requires 0.0 <= margin || ReplayClass(est, margin, margin * 0.0, frontier, safeinDk) == SafeOut
    ensures Looser(ReplayClass(est, margin, margin * upper, frontier, safeinDk),
                   ReplayClass(est, margin, margin * lower, frontier, safeinDk))
  {
    if 0.0 <= margin {
      ScaledMargin(margin, lower, upper);
    }
  }

  /** With a negative margin that SafeOut does not mask, some pair of scales loses a
      SafeIn row. */
  lemma {:induction false} ClassTightens(est: real, margin: real, frontier: Frontier, safeinDk: real)
      returns (lower: real, upper: real)
    requires margin < 0.0 && ReplayClass(est, margin, margin * 0.0, frontier, safeinDk) != SafeOut
    ensures lower <= upper
    ensures ReplayClass(est, margin, margin * upper, frontier, safeinDk) == SafeIn
    ensures ReplayClass(est, margin, margin * lower, frontier, safeinDk) == Uncertain
  {
    var edge := (safeinDk - est) / margin;
    lower, upper := edge - 1.0, edge + 1.0;
    ScaledEdge(margin, safeinDk - est, edge);
  }

  lemma {:induction false} ScaledEdge(margin: real, gap: real, edge: real)
    requires margin < 0.0 && edge == gap / margin
    ensures margin * (edge + 1.0) == gap + margin
    ensures margin * (edge - 1.0) == gap - margin
  {
    assert margin * edge == gap;
  }

  /** Lowering the scale only turns Uncertain into SafeIn, for a row and all pairs of
      scales, if and only if its margin is not negative or it is SafeOut anyway. */
  lemma {:induction false} Stage1LoosensExactly(r: ReplayRow)
    ensures Stage1Loosens(r) <==> Stage1Sound(r)
  {
    if Stage1Sound(r) {
      forall lower, upper | lower <= upper ensures Looser(Class1(r, upper), Class1(r, lower)) {
        ClassLoosens(r.est1, r.margin1, r.frontier, r.safeinDk, lower, upper);
      }
    } else {
      var lower, upper := ClassTightens(r.est1, r.margin1, r.frontier, r.safeinDk);
      assert !Looser(Class1(r, upper), Class1(r, lower));
    }
  }

  lemma {:induction false} Stage2LoosensExactly(r: ReplayRow)
    ensures Stage2Loosens(r) <==> Stage2Sound(r)
  {
    if Stage2Sound(r) {
      forall lower, upper | lower <= upper ensures Looser(Class2(r, upper), Class2(r, lower)) {
        ClassLoosens(r.est2, r.margin2, r.frontier, r.safeinDk, lower, upper);
      }
    } else {
      var lower, upper := ClassTightens(r.est2, r.margin2, r.frontier, r.safeinDk);
      assert !Looser(Class2(r, upper), Class2(r, lower));
    }
  }

  /** Over sound rows, lowering the scale never decreases a SafeIn or false SafeIn count
      and leaves every SafeOut count alone. */
  lemma {:induction false} LowerScaleLoosens(rows: seq<ReplayRow>, lower: real, upper: real)
    requires lower <= upper && SoundRows(rows)
    ensures Loosened(Summary(rows, upper).s1, Summary(rows, lower).s1)
    ensures Loosened(Summary(rows, upper).s2, Summary(rows, lower).s2)
    ensures Loosened(Summary(rows, upper).final, Summary(rows, lower).final)
  {
    hide Class1, Class2, Stage1Sound, Stage2Sound, Loosened, Looser;
    if rows == [] {
      NothingLoosened();
    } else {
      var init, r := rows[..|rows|-1], rows[|rows|-1];
      LowerScaleLoosens(init, lower, upper);
      RowLoosens(r, lower, upper);
      var a, b := Summary(init, upper), Summary(init, lower);
      LoosenedStep(a.s1, b.s1, Class1(r, upper), Class1(r, lower), r.isTrueTopK);
      if r.stage2 {
        LoosenedStep(a.s2, b.s2, Class2(r, upper), Class2(r, lower), r.isTrueTopK);
      }
      LoosenedStep(a.final, b.final, FinalClass(r, upper), FinalClass(r, lower), r.isTrueTopK);
    }
  }

  lemma {:induction false} NothingLoosened()
    ensures Loosened(NO_COUNTS, NO_COUNTS)
  {
  }

  lemma {:induction false} RowLoosens(r: ReplayRow, lower: real, upper: real)
    requires lower <= upper && SoundRow(r)
    ensures Looser(Class1(r, upper), Class1(r, lower))
    ensures r.stage2 ==> Looser(Class2(r, upper), Class2(r, lower))
  {
    Stage1LoosensExactly(r);
    Stage2LoosensExactly(r);
  }

  // ----- the counts loosen only over sound rows -----

  /** What one stage of a row is classified by. */
  datatype Stage = Stage(est: real, margin: real, frontier: Frontier, safeinDk: real) {
    function Class(scale: real): ResultClass {
      ReplayClass(est, margin, margin * scale, frontier, safeinDk)
    }
  }

  function Stage1(r: ReplayRow): Stage {
    Stage(r.est1, r.margin1, r.frontier, r.safeinDk)
  }

  function Stage2(r: ReplayRow): Stage {
    Stage(r.est2, r.margin2, r.frontier, r.safeinDk)
  }

  /** The stages counted in s1 and in s2. */
  function Stages1(rows: seq<ReplayRow>): seq<Stage> {
    if rows == [] then [] else Stages1(rows[..|rows|-1]) + [Stage1(rows[|rows|-1])]
  }

  function Stages2(rows: seq<ReplayRow>): seq<Stage> {
    if rows == [] then []
    else Stages2(rows[..|rows|-1]) + if rows[|rows|-1].stage2 then [Stage2(rows[|rows|-1])] else []
  }

  function SafeIns(stages: seq<Stage>, scale: real): nat {
    if stages == [] then 0
    else SafeIns(stages[..|stages|-1], scale) + if stages[|stages|-1].Class(scale) == SafeIn then 1 else 0
  }

  lemma {:induction false} SafeInsMore(stages: seq<Stage>, more: seq<Stage>, scale: real)
    requires |more| <= 1
    ensures SafeIns(stages + more, scale) ==
      SafeIns(stages, scale) + if more != [] && more[0].Class(scale) == SafeIn then 1 else 0
  {
    if more == [] {
      assert stages + more == stages;
    } else {
      assert (stages + more)[..|stages|] == stages;
    }
  }

  lemma {:induction false} AddSafeIn(c: Counts, rc: ResultClass, t: bool)
    ensures c.Add(rc, t).safeIn == c.safeIn + if rc == SafeIn then 1 else 0
  {
  }

  /** What one more row does to the SafeIn counts of a summary. */
  lemma {:induction false} RowSafeIn(init: seq<ReplayRow>, r: ReplayRow, scale: real)
    ensures var before, s := Summary(init, scale), Summary(init + [r], scale);
      && s.s1.safeIn == before.s1.safeIn + (if Class1(r, scale) == SafeIn then 1 else 0)
      && s.s2.safeIn == before.s2.safeIn + (if r.stage2 && Class2(r, scale) == SafeIn then 1 else 0)
  {
    hide Class1, Class2;
    assert (init + [r])[..|init|] == init;
    AddSafeIn(Summary(init, scale).s1, Class1(r, scale), r.isTrueTopK);
    AddSafeIn(Summary(init, scale).s2, Class2(r, scale), r.isTrueTopK);
  }

  lemma {:induction false} StagesOfMore(init: seq<ReplayRow>, r: ReplayRow)
    ensures Stages1(init + [r]) == Stages1(init) + [Stage1(r)]
    ensures Stages2(init + [r]) == Stages2(init) + if r.stage2 then [Stage2(r)] else []
  {
    assert (init + [r])[..|init|] == init;
  }

  lemma {:induction false} StageClasses(r: ReplayRow, scale: real)
    ensures Stage1(r).Class(scale) == Class1(r, scale) && Stage2(r).Class(scale) == Class2(r, scale)
  {
  }

  lemma {:induction false} NothingSafeIn(rows: seq<ReplayRow>, scale: real)
    requires rows == []
    ensures Summary(rows, scale).s1.safeIn == SafeIns(Stages1(rows), scale)
    ensures Summary(rows, scale).s2.safeIn == SafeIns(Stages2(rows), scale)
  {
  }

  lemma {:induction false} CountsSafeIns(rows: seq<ReplayRow>, scale: real)
    ensures Summary(rows, scale).s1.safeIn == SafeIns(Stages1(rows), scale)
    ensures Summary(rows, scale).s2.safeIn == SafeIns(Stages2(rows), scale)
  {
    hide Class1, Class2, Stage.Class, SafeIns, Summary, Stages1, Stages2;
    if rows == [] {
      NothingSafeIn(rows, scale);
    } else {
      var init, r := rows[..|rows|-1], rows[|rows|-1];
      assert rows == init + [r];
      CountsSafeIns(init, scale);
      RowSafeIn(init, r, scale);
      StagesOfMore(init, r);
      SafeInsMore(Stages1(init), [Stage1(r)], scale);
      SafeInsMore(Stages2(init), if r.stage2 then [Stage2(r)] else [], scale);
      StageClasses(r, scale);
    }
  }

  /** The scale at which a negative margin reaches the gap to safeinDk. */
  function Edge(s: Stage): real
    requires s.margin < 0.0
  {
    (s.safeinDk - s.est) / s.margin
  }

  predicate Unsound(s: Stage) {
    s.margin < 0.0 && s.Class(0.0) != SafeOut
  }

  /** Right at the edge the row is Uncertain, at any higher scale SafeIn. */
  lemma {:induction false} EdgeClass(s: Stage, upper: real)
    requires Unsound(s) && Edge(s) < upper
    ensures s.Class(Edge(s)) == Uncertain && s.Class(upper) == SafeIn
  {
    assert s.margin * Edge(s) == s.safeinDk - s.est;
    StrictlyLess(s.margin, Edge(s), upper);
  }

  lemma {:induction false} StrictlyLess(m: real, a: real, b: real)
    requires m < 0.0 && a < b
    ensures m * b < m * a
  {
  }

  /** SafeIn at the lower scale stays SafeIn up to the upper one. */
  ghost predicate StaysIn(s: Stage, lower: real, upper: real) {
    s.Class(lower) == SafeIn ==> forall scale :: lower <= scale <= upper ==> s.Class(scale) == SafeIn
  }

  lemma {:induction false} StaysInAWhile(s: Stage, lower: real) returns (upper: real)
    ensures lower < upper && StaysIn(s, lower, upper)
  {
    upper := lower + 1.0;
    if s.Class(lower) == SafeIn && s.margin > 0.0 {
      upper := lower + (s.safeinDk - s.est - s.margin * lower) / (2.0 * s.margin);
      HalfTheGap(s.margin, lower, s.safeinDk - s.est, upper);
    }
    if s.Class(lower) == SafeIn {
      forall scale | lower <= scale <= upper ensures s.Class(scale) == SafeIn {
        ScaledBetween(s.margin, lower, scale, upper);
      }
    }
  }

  lemma {:induction false} HalfTheGap(m: real, lower: real, gap: real, upper: real)
    requires 0.0 < m && m * lower < gap && upper == lower + (gap - m * lower) / (2.0 * m)
    ensures lower < upper && m * upper < gap
  {
    var step := (gap - m * lower) / (2.0 * m);
    assert 2.0 * (m * step) == gap - m * lower;
    assert m * upper == m * lower + m * step;
    if step <= 0.0 {
      ScaledMargin(m, step, 0.0);
    }
  }

  lemma {:induction false} ScaledBetween(m: real, lower: real, scale: real, upper: real)
    requires lower <= scale <= upper
    ensures m <= 0.0 ==> m * scale <= m * lower
    ensures 0.0 <= m ==> m * scale <= m * upper
  {
    if 0.0 <= m {
      ScaledMargin(m, scale, upper);
    } else {
      ScaledMargin(-m, lower, scale);
    }
  }

  /** A scale above the lower one up to which no row stops being SafeIn. */
  lemma {:induction false} AllStayIn(stages: seq<Stage>, lower: real) returns (upper: real)
    ensures lower < upper && forall i :: 0 <= i < |stages| ==> StaysIn(stages[i], lower, upper)
  {
    hide ReplayClass;
    upper := lower + 1.0;
    if stages != [] {
      var n := |stages| - 1;
      var before := AllStayIn(stages[..n], lower);
      var own := StaysInAWhile(stages[n], lower);
      upper := if before < own then before else own;
      forall i | 0 <= i < |stages| ensures StaysIn(stages[i], lower, upper) {
        assert i < n ==> StaysIn(stages[..n][i], lower, before);
      }
    }
  }

  /** If none stops being SafeIn, the count does not drop, and rises where one becomes
      SafeIn. */
  lemma {:induction false} SafeInsKept(stages: seq<Stage>, lower: real, upper: real, k: int)
    requires lower <= upper && k < |stages|
    requires forall i :: 0 <= i < |stages| ==> StaysIn(stages[i], lower, upper)
    requires 0 <= k ==> stages[k].Class(lower) != SafeIn && stages[k].Class(upper) == SafeIn
    ensures SafeIns(stages, lower) + (if 0 <= k then 1 else 0) <= SafeIns(stages, upper)
  {
    hide ReplayClass;
    if stages != [] {
      var n := |stages| - 1;
      assert StaysIn(stages[n], lower, upper);
      forall i | 0 <= i < n ensures StaysIn(stages[..n][i], lower, upper) {
        assert StaysIn(stages[i], lower, upper);
      }
      SafeInsKept(stages[..n], lower, upper, if k < n then k else -1);
    }
  }

  /** An unsound row costs some pair of scales a SafeIn count. */
  lemma {:induction false} UnsoundTightens(stages: seq<Stage>, k: nat) returns (lower: real, upper: real)
    requires k < |stages| && Unsound(stages[k])
    ensures lower < upper && SafeIns(stages, lower) < SafeIns(stages, upper)
  {
    hide ReplayClass, SafeIns, StaysIn;
    lower := Edge(stages[k]);
    upper := AllStayIn(stages, lower);
    EdgeClass(stages[k], upper);
    SafeInsKept(stages, lower, upper, k);
  }

  /** The place of a row's stage among those counted. */
  lemma {:induction false} StageOfRow(rows: seq<ReplayRow>, i: nat) returns (j: nat, k: nat)
    requires i < |rows|
    ensures j < |Stages1(rows)| && Stages1(rows)[j] == Stage1(rows[i])
    ensures rows[i].stage2 ==> k < |Stages2(rows)| && Stages2(rows)[k] == Stage2(rows[i])
  {
    var n := |rows| - 1;
    if i < n {
      j, k := StageOfRow(rows[..n], i);
    } else {
      j, k := |Stages1(rows[..n])|, |Stages2(rows[..n])|;
    }
  }

  /** Lowering the scale, from any scale to any other, loosens the counts of all stages. */
  predicate CountsLoosen(rows: seq<ReplayRow>, lower: real, upper: real) {
    && Loosened(Summary(rows, upper).s1, Summary(rows, lower).s1)
    && Loosened(Summary(rows, upper).s2, Summary(rows, lower).s2)
    && Loosened(Summary(rows, upper).final, Summary(rows, lower).final)
  }

  lemma {:induction false} UnsoundRowTightens(rows: seq<ReplayRow>, i: nat) returns (lower: real, upper: real)
    requires i < |rows| && !SoundRow(rows[i])
    ensures lower <= upper && !CountsLoosen(rows, lower, upper)
  {
    hide SafeIns, Stages1, Stages2, Summary;
    var j, k := StageOfRow(rows, i);
    if !Stage1Sound(rows[i]) {
      lower, upper := UnsoundTightens(Stages1(rows), j);
    } else {
      lower, upper := UnsoundTightens(Stages2(rows), k);
    }
    CountsSafeIns(rows, lower);
    CountsSafeIns(rows, upper);
  }

  /** The counts of a candidate list loosen between all pairs of scales, at every stage,
      if and only if every row of the list is sound. */
  lemma {:induction false} CountsLoosenExactly(rows: seq<ReplayRow>)
    ensures (forall lower, upper :: lower <= upper ==> CountsLoosen(rows, lower, upper)) <==> SoundRows(rows)
  {
    hide SoundRow, Summary, Loosened;
    if SoundRows(rows) {
      forall lower, upper | lower <= upper ensures CountsLoosen(rows, lower, upper) {
        LowerScaleLoosens(rows, lower, upper);
      }
    } else {
      var i :| 0 <= i < |rows| && !SoundRow(rows[i]);
      var lower, upper := UnsoundRowTightens(rows, i);
      assert lower <= upper && !CountsLoosen(rows, lower, upper);
    }
  }

  /** A row that loses SafeIn when the scale is lowered. */
  lemma {:induction false} NegativeMarginTightens()
    ensures exists r: ReplayRow :: !Loosened(Summary([r], 1.0).s1, Summary([r], 0.0).s1)
  {
    var r := ReplayRow(true, false, 0.5, 0.0, -1.0, 0.0, 0.0, Infinite);
    assert [r][..0] == [];
    assert Class1(r, 1.0) == SafeIn && Class1(r, 0.0) == Uncertain;
    assert !Loosened(Summary([r], 1.0).s1, Summary([r], 0.0).s1);
  }

  // ----- replaying a run -----

  /** The log row as the replay's input, before it is printed to per_candidate.csv; the
      second-stage columns are empty when the stage was not evaluated. */
  function ToReplayRow(r: LogRow, cfg: Config): ReplayRow
    requires cfg.Valid()
  {
    var margin2 := if r.d.stage2 then r.cand.margin1 / MarginDivisor(cfg.bits) else 0.0;
    ReplayRow(r.cand.isTrueTopK, r.d.stage2, r.cand.est1, if r.d.stage2 then r.cand.est2 else 0.0,
              r.cand.margin1, margin2, cfg.safeinDk, r.frontier)
  }

  function ToReplayRows(log: seq<LogRow>, cfg: Config): (r: seq<ReplayRow>)
    requires cfg.Valid()
    ensures |r| == |log|
  {
    seq(|log|, i requires 0 <= i < |log| => ToReplayRow(log[i], cfg))
  }

  function ClassCountsOf(c: Counts): ClassCounts {
    ClassCounts(c.safeIn, c.safeOut, c.uncertain)
  }

  lemma {:induction false} RowAtScaleOne(r: LogRow, cfg: Config)
    requires cfg.Valid() && r.d == Decide(r.cand, r.frontier, cfg)
    ensures var row := ToReplayRow(r, cfg);
      && row.isTrueTopK == r.cand.isTrueTopK && row.stage2 == r.d.stage2
      && Class1(row, 1.0) == r.d.s1 && (r.d.stage2 ==> Class2(row, 1.0) == r.d.s2)
      && FinalClass(row, 1.0) == r.d.final
  {
  }

  /** Replaying any run's log at scale one reproduces the run's own counters. */
  lemma {:induction false} ReplayAtScaleOne(log: seq<LogRow>, cfg: Config)
    requires cfg.Valid()
    requires forall i :: 0 <= i < |log| ==> log[i].d == Decide(log[i].cand, log[i].frontier, cfg)
    ensures var s, stats := Summary(ToReplayRows(log, cfg), 1.0), Tally(log);
      && ClassCountsOf(s.s1) == stats.s1
      && ClassCountsOf(s.s2) == stats.s2
      && ClassCountsOf(s.final) == stats.final
      && s.final.falseSafeOut == stats.finalFalseSafeOut
  {
    hide ToReplayRow, Decide, Class1, Class2, FinalClass;
    if log != [] {
      var init, r := log[..|log|-1], log[|log|-1];
      ReplayAtScaleOne(init, cfg);
      var rows := ToReplayRows(log, cfg);
      assert rows[..|rows|-1] == ToReplayRows(init, cfg);
      RowAtScaleOne(r, cfg);
    }
  }
}
