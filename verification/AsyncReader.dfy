/** The two readers behind the protocol: the ring-based one and the synchronous
    fallback, which is a ring reader whose kernel answers at once. */
module AsyncReader {
  import opened OrderStats
  import opened ReadProtocol

  // ----- the ring-based reader -----

  class IoUringReader {
    var ring: Ring
    var prepped: nat
    var inFlight: nat
    ghost var prepared: seq<nat>
    ghost var reaped: seq<nat>

    ghost function View(): ReaderState
      reads this
    {
      ReaderState(ring, prepped, inFlight, prepared, reaped)
    }

    constructor (queueDepth: nat)
      ensures View() == NewReader(queueDepth)
    {
      ring := Ring(queueDepth, [], multiset{}, []);
      prepped, inFlight := 0, 0;
      prepared, reaped := [], [];
    }

    /** A free queue slot, flushing the queue when there is none. */
    method AcquireSqeWithAutoFlush(ret: int) returns (ok: bool)
      requires |ring.sq| >= ring.depth ==> SubmitAnswer(ring, ret)
      modifies this
      ensures prepared == old(prepared) && reaped == old(reaped)
      ensures old(|ring.sq| < ring.depth) ==> ok && View() == old(View())
      ensures old(|ring.sq| >= ring.depth) && ret < 0 ==> !ok && View() == old(View())
      ensures old(|ring.sq| >= ring.depth) && ret >= 0 ==>
        && View() == old(View()).(ring := Taken(old(ring), ret), inFlight := old(inFlight + prepped), prepped := 0)
        && (ok <==> |ring.sq| < ring.depth)
    {
      if |ring.sq| < ring.depth {
        return true;
      }
      if ret < 0 {
        return false;
      }
      ring := Taken(ring, ret);
      inFlight := inFlight + prepped;
      prepped := 0;
      return |ring.sq| < ring.depth;
    }

    method PrepReadTagged(tag: nat, ret: int) returns (ok: bool)
      requires |ring.sq| >= ring.depth ==> SubmitAnswer(ring, ret)
      modifies this
      ensures (View(), ok) == AfterPrep(old(View()), tag, ret)
    {
      ok := AcquireSqeWithAutoFlush(ret);
      if ok {
        ring := ring.(sq := ring.sq + [tag]);
        prepped := prepped + 1;
        prepared := prepared + [tag];
      }
    }

    method Submit(ret: int) returns (submitted: nat)
      requires SubmitAnswer(ring, ret)
      modifies this
      ensures (View(), submitted) == AfterSubmit(old(View()), ret)
    {
      if prepped == 0 {
        return 0;
      }
      ring := Taken(ring, ret);
      submitted := if ret > 0 then ret else 0;
      inFlight := inFlight + submitted;
      prepped := 0;
    }

    /** Delivers up to maxCount completions, oldest first. */
    method Poll(maxCount: nat) returns (out: seq<Completion>)
      modifies this
      ensures View() == AfterPoll(old(View()), maxCount)
      ensures out == Output(old(View()), EvPoll(maxCount))
      ensures out == old(ring.cq)[..Min(maxCount, old(|ring.cq|))]
      ensures out + ring.cq == old(ring.cq) && reaped == old(reaped) + Tags(out)
    {
      hide AfterPoll, Tags;
      ghost var start := View();
      PollMeans(start, maxCount);
      out := [];
      while |out| < maxCount && ring.cq != []
        invariant |out| <= maxCount
        invariant out + ring.cq == start.ring.cq
        invariant AfterPoll(View(), maxCount - |out|) == AfterPoll(start, maxCount)
        decreases maxCount - |out|
      {
        PollStep(View(), maxCount - |out|);
        var c := PollOne();
        out := out + [c];
      }
      PollDone(View(), maxCount - |out|);
    }

    /** Takes the oldest completion off the queue. */
    method PollOne() returns (c: Completion)
      requires ring.cq != []
      modifies this
      ensures View() == ReapOne(old(View())) && c == old(ring.cq)[0]
    {
      c := ring.cq[0];
      reaped := reaped + [c.userData];
      ring := ring.(cq := ring.cq[1..]);
      inFlight := Decrement(inFlight);
    }

    /** Waits for one completion, then drains what is ready. */
    method WaitAndPoll(maxCount: nat, waitOk: bool) returns (out: seq<Completion>)
      requires Enabled(View(), EvWaitAndPoll(maxCount, waitOk))
      modifies this
      ensures View() == AfterWaitAndPoll(old(View()), maxCount, waitOk)
      ensures out == Output(old(View()), EvWaitAndPoll(maxCount, waitOk))
      ensures out == if maxCount == 0 || old(inFlight) == 0 || !waitOk then []
                     else old(ring.cq)[..Min(maxCount, old(|ring.cq|))]
      ensures out + ring.cq == old(ring.cq) && reaped == old(reaped) + Tags(out)
    {
      PollsReap(View(), EvWaitAndPoll(maxCount, waitOk));
      if maxCount == 0 || inFlight == 0 {
        return [];
      }
      if !waitOk {
        return [];
      }
      out := Poll(maxCount);
    }
  }

  // ----- the synchronous fallback -----

  /** Requests waiting for submit, and completions waiting to be polled. */
  datatype FallbackState = FallbackState(pending: seq<nat>, completed: seq<Completion>, prepared: seq<nat>, reaped: seq<nat>)

  /** Exactly once and in preparation order. */
  ghost predicate InOrder(f: FallbackState) {
    f.reaped + Tags(f.completed) + f.pending == f.prepared
  }

  function Outcomes(pending: seq<nat>, results: seq<int>): (r: seq<Completion>)
    requires |results| == |pending|
    ensures |r| == |pending|
  {
    seq(|pending|, i requires 0 <= i < |pending| => Completion(pending[i], results[i]))
  }

  /** A call to the fallback reader, with what the reads of a submit return. */
  datatype FallbackCall = CallPrep(tag: nat) | CallSubmit(results: seq<int>) | CallPoll(maxCount: nat)

  /** A submit reads every pending request, and nothing else. */
  predicate Answered(f: FallbackState, c: FallbackCall) {
    c.CallSubmit? ==> |c.results| == |f.pending|
  }

  function AfterCall(f: FallbackState, c: FallbackCall): FallbackState
    requires Answered(f, c)
  {
    match c
    case CallPrep(tag) => f.(pending := f.pending + [tag], prepared := f.prepared + [tag])
    case CallSubmit(results) => f.(pending := [], completed := f.completed + Outcomes(f.pending, results))
    case CallPoll(m) =>
      var n := Min(m, |f.completed|);
      f.(completed := f.completed[n..], reaped := f.reaped + Tags(f.completed[..n]))
  }

  class PreadFallbackReader {
    var pending: seq<nat>
    var completed: seq<Completion>
    ghost var prepared: seq<nat>
    ghost var reaped: seq<nat>

    ghost function View(): FallbackState
      reads this
    {
      FallbackState(pending, completed, prepared, reaped)
    }

    constructor ()
      ensures View() == FallbackState([], [], [], [])
    {
      pending, completed, prepared, reaped := [], [], [], [];
    }

    method PrepReadTagged(tag: nat)
      modifies this
      ensures View() == AfterCall(old(View()), CallPrep(tag))
      ensures old(InOrder(View())) ==> InOrder(View())
    {
      StaysInOrder(View(), CallPrep(tag));
      pending := pending + [tag];
      prepared := prepared + [tag];
    }

    /** Runs every pending read; results are what the reads return. */
    method Submit(results: seq<int>) returns (count: nat)
      requires |results| == |pending|
      modifies this
      ensures count == old(|pending|)
      ensures View() == AfterCall(old(View()), CallSubmit(results))
      ensures |completed| == old(|completed|) + count && completed[..old(|completed|)] == old(completed)
      ensures forall i :: 0 <= i < count ==> completed[old(|completed|) + i] == Completion(old(pending)[i], results[i])
      ensures old(InOrder(View())) ==> InOrder(View())
    {
      StaysInOrder(View(), CallSubmit(results));
      count := 0;
      while count < |pending|
        invariant 0 <= count <= |pending| && pending == old(pending)
        invariant prepared == old(prepared) && reaped == old(reaped)
        invariant completed == old(completed) + Outcomes(pending, results)[..count]
      {
        completed := completed + [Completion(pending[count], results[count])];
        count := count + 1;
      }
      assert Outcomes(pending, results)[..count] == Outcomes(pending, results);
      pending := [];
    }

    /** Delivers up to maxCount completions, oldest first. */
    method Poll(maxCount: nat) returns (out: seq<Completion>)
      modifies this
      ensures out == old(completed)[..Min(maxCount, old(|completed|))]
      ensures View() == AfterCall(old(View()), CallPoll(maxCount))
      ensures old(InOrder(View())) ==> InOrder(View())
    {
      StaysInOrder(View(), CallPoll(maxCount));
      var n := Min(maxCount, |completed|);
      ghost var all := completed;
      out := [];
      for i := 0 to n
        invariant out == all[..i] && completed == all[i..]
        invariant pending == old(pending) && prepared == old(prepared) && reaped == old(reaped)
      {
        out := out + [completed[0]];
        completed := completed[1..];
      }
      reaped := reaped + Tags(out);
    }

    /** Everything submitted is already complete, so there is nothing to wait for. */
    method WaitAndPoll(maxCount: nat) returns (out: seq<Completion>)
      modifies this
      ensures out == old(completed)[..Min(maxCount, old(|completed|))]
      ensures View() == AfterCall(old(View()), CallPoll(maxCount))
      ensures old(InOrder(View())) ==> InOrder(View())
    {
      out := Poll(maxCount);
    }
  }

  // ----- runs of the fallback -----

  predicate IsFallbackRun(f: FallbackState, calls: seq<FallbackCall>)
    decreases |calls|
  {
    calls == [] || (Answered(f, calls[0]) && IsFallbackRun(AfterCall(f, calls[0]), calls[1..]))
  }

  function FallbackExec(f: FallbackState, calls: seq<FallbackCall>): FallbackState
    requires IsFallbackRun(f, calls)
    decreases |calls|
  {
    if calls == [] then f else FallbackExec(AfterCall(f, calls[0]), calls[1..])
  }

  lemma {:induction false} StaysInOrder(f: FallbackState, c: FallbackCall)
    requires Answered(f, c)
    ensures InOrder(f) ==> InOrder(AfterCall(f, c))
  {
    if InOrder(f) {
      CallInOrder(f, c);
    }
  }

  lemma {:induction false} CallInOrder(f: FallbackState, c: FallbackCall)
    requires InOrder(f) && Answered(f, c)
    ensures InOrder(AfterCall(f, c))
  {
    match c
    case CallPrep(tag) =>
      assert f.reaped + Tags(f.completed) + (f.pending + [tag]) == f.prepared + [tag];
    case CallSubmit(results) =>
      TagsOfOutcomes(f.completed, f.pending, results);
      assert f.reaped + (Tags(f.completed) + f.pending) + [] == f.prepared;
    case CallPoll(m) =>
      var n := Min(m, |f.completed|);
      assert Tags(f.completed) == Tags(f.completed[..n]) + Tags(f.completed[n..]);
  }

  lemma {:induction false} TagsOfOutcomes(done: seq<Completion>, pending: seq<nat>, results: seq<int>)
    requires |results| == |pending|
    ensures Tags(done + Outcomes(pending, results)) == Tags(done) + pending
  {
  }

  /** Over every run of the fallback, tags are delivered exactly once and in the order
      they were prepared: delivered, completed and pending ones are the prepared ones. */
  lemma {:induction false} FallbackRunsInOrder(f: FallbackState, calls: seq<FallbackCall>)
    requires InOrder(f) && IsFallbackRun(f, calls)
    ensures InOrder(FallbackExec(f, calls))
    decreases |calls|
  {
    hide InOrder, AfterCall;
    if calls != [] {
      CallInOrder(f, calls[0]);
      FallbackRunsInOrder(AfterCall(f, calls[0]), calls[1..]);
    }
  }

  // ----- the fallback is a ring reader whose kernel answers at once -----

  /** The ring reader a fallback reader stands for. */
  function AsRing(f: FallbackState, depth: nat): ReaderState {
    ReaderState(Ring(depth, f.pending, multiset{}, f.completed), |f.pending|, |f.completed|, f.prepared, f.reaped)
  }

  /** A fallback prepare is a ring prepare if and only if the queue has room; with a full
      queue the ring flushes or fails, and the fallback does neither. */
  lemma {:induction false} FallbackPrepRefines(f: FallbackState, tag: nat, ret: int, depth: nat)
    requires |f.pending| >= depth ==> SubmitAnswer(AsRing(f, depth).ring, ret)
    ensures AfterPrep(AsRing(f, depth), tag, ret) == (AsRing(AfterCall(f, CallPrep(tag)), depth), true)
      <==> |f.pending| < depth
  {
    if |f.pending| >= depth {
      var s := AfterPrep(AsRing(f, depth), tag, ret).0;
      assert |s.ring.sq| <= |f.pending|;
      assert |AsRing(AfterCall(f, CallPrep(tag)), depth).ring.sq| == |f.pending| + 1;
    }
  }

  function Completes(cs: seq<Completion>): (r: seq<Event>)
    ensures |r| == |cs|
  {
    seq(|cs|, i requires 0 <= i < |cs| => EvComplete(cs[i]))
  }

  /** The state once the kernel has finished all it holds, in the given order. */
  function Finished(s: ReaderState, cs: seq<Completion>): ReaderState {
    s.(ring := s.ring.(kernel := multiset{}, cq := s.ring.cq + cs))
  }

  lemma {:induction false} FinishedFromNext(s: ReaderState, next: ReaderState, cs: seq<Completion>)
    requires cs != [] && next == s.(ring := next.ring)
    requires next.ring == s.ring.(kernel := next.ring.kernel, cq := s.ring.cq + [cs[0]])
    ensures Finished(next, cs[1..]) == Finished(s, cs)
  {
    assert next.ring.cq + cs[1..] == s.ring.cq + cs;
  }

  /** The kernel completing reads in the given order. */
  lemma {:induction false} CompletesRun(s: ReaderState, cs: seq<Completion>)
    requires s.ring.kernel == multiset(Tags(cs))
    ensures IsRun(s, Completes(cs)) && Exec(s, Completes(cs)) == Finished(s, cs)
    decreases |cs|
  {
    if cs == [] {
      assert s.ring.cq + cs == s.ring.cq;
    } else {
      var next := CompleteFirst(s, cs);
      CompletesRun(next, cs[1..]);
      FinishedFromNext(s, next, cs);
      RunStep(s, EvComplete(cs[0]), Completes(cs[1..]));
    }
  }

  lemma {:induction false} CompleteFirst(s: ReaderState, cs: seq<Completion>) returns (next: ReaderState)
    requires cs != [] && s.ring.kernel == multiset(Tags(cs))
    ensures Enabled(s, EvComplete(cs[0])) && next == Step(s, EvComplete(cs[0]))
    ensures next.ring.kernel == multiset(Tags(cs[1..])) && next.ring.cq == s.ring.cq + [cs[0]]
    ensures next == s.(ring := next.ring) && next.ring == s.ring.(kernel := next.ring.kernel, cq := next.ring.cq)
    ensures Completes(cs) == [EvComplete(cs[0])] + Completes(cs[1..])
  {
    assert Tags(cs) == [cs[0].userData] + Tags(cs[1..]);
    next := AfterComplete(s, cs[0]);
  }

  /** A fallback submit is a whole ring submit followed by the kernel completing the
      reads in queue order; with nothing pending it is a ring submit of nothing. */
  lemma {:induction false} FallbackSubmitRefines(f: FallbackState, results: seq<int>, depth: nat)
    requires |results| == |f.pending|
    ensures var events := RingEvents(f, CallSubmit(results));
      && IsRun(AsRing(f, depth), events)
      && Exec(AsRing(f, depth), events) == AsRing(AfterCall(f, CallSubmit(results)), depth)
  {
    hide IsRun, Exec;
    var s := AsRing(f, depth);
    var cs := Outcomes(f.pending, results);
    var next := Step(s, EvSubmit(|f.pending|));
    SubmitAll(f, results, depth);
    CompletesRun(next, cs);
    RunStep(s, EvSubmit(|f.pending|), Completes(cs));
  }

  lemma {:induction false} SubmitAll(f: FallbackState, results: seq<int>, depth: nat)
    requires |results| == |f.pending|
    ensures var s, cs := AsRing(f, depth), Outcomes(f.pending, results);
      && Enabled(s, EvSubmit(|f.pending|))
      && Step(s, EvSubmit(|f.pending|)).ring.kernel == multiset(Tags(cs))
      && Finished(Step(s, EvSubmit(|f.pending|)), cs) == AsRing(AfterCall(f, CallSubmit(results)), depth)
  {
    var cs := Outcomes(f.pending, results);
    assert f.pending[..|f.pending|] == f.pending;
    assert Tags(cs) == f.pending;
    if f.pending == [] {
      assert f.completed + cs == f.completed;
    }
  }

  /** A fallback poll is the ring reader's poll. */
  lemma {:induction false} FallbackPollRefines(f: FallbackState, maxCount: nat, depth: nat)
    ensures AfterPoll(AsRing(f, depth), maxCount) == AsRing(AfterCall(f, CallPoll(maxCount)), depth)
    decreases maxCount
  {
    var n := Min(maxCount, |f.completed|);
    if n == 0 {
      assert f.completed[n..] == f.completed && f.reaped + Tags(f.completed[..n]) == f.reaped;
    } else {
      var g := f.(completed := f.completed[1..], reaped := f.reaped + [f.completed[0].userData]);
      assert ReapOne(AsRing(f, depth)) == AsRing(g, depth);
      FallbackPollRefines(g, maxCount - 1, depth);
      assert f.completed[1..][n-1..] == f.completed[n..];
      assert g.reaped + Tags(f.completed[1..][..n-1]) == f.reaped + Tags(f.completed[..n]);
    }
  }

  /** What the ring reader and its kernel do for one fallback call. */
  function RingEvents(f: FallbackState, c: FallbackCall): seq<Event>
    requires Answered(f, c)
  {
    match c
    case CallPrep(tag) => [EvPrep(tag, 0)]
    case CallSubmit(results) => [EvSubmit(|f.pending|)] + Completes(Outcomes(f.pending, results))
    case CallPoll(m) => [EvPoll(m)]
  }

  function RingRun(f: FallbackState, calls: seq<FallbackCall>): seq<Event>
    requires IsFallbackRun(f, calls)
    decreases |calls|
  {
    if calls == [] then [] else RingEvents(f, calls[0]) + RingRun(AfterCall(f, calls[0]), calls[1..])
  }

  /** No prepare of the run finds depth requests pending. */
  predicate HasRoom(f: FallbackState, calls: seq<FallbackCall>, depth: nat)
    requires IsFallbackRun(f, calls)
    decreases |calls|
  {
    calls == [] ||
    ((calls[0].CallPrep? ==> |f.pending| < depth) && HasRoom(AfterCall(f, calls[0]), calls[1..], depth))
  }

  lemma {:induction false} FallbackCallRefines(f: FallbackState, c: FallbackCall, depth: nat)
    requires Answered(f, c) && (c.CallPrep? ==> |f.pending| < depth)
    ensures var events := RingEvents(f, c);
      IsRun(AsRing(f, depth), events) && Exec(AsRing(f, depth), events) == AsRing(AfterCall(f, c), depth)
  {
    match c
    case CallPrep(tag) =>
      FallbackPrepRefines(f, tag, 0, depth);
      OneEvent(AsRing(f, depth), EvPrep(tag, 0));
    case CallSubmit(results) => FallbackSubmitRefines(f, results, depth);
    case CallPoll(m) =>
      FallbackPollRefines(f, m, depth);
      OneEvent(AsRing(f, depth), EvPoll(m));
  }

  /** Every run of the fallback that leaves room at its prepares is a run of the ring
      reader, ending in the state that stands for the fallback's. */
  lemma {:induction false} FallbackRunRefines(f: FallbackState, calls: seq<FallbackCall>, depth: nat)
    requires IsFallbackRun(f, calls) && HasRoom(f, calls, depth)
    ensures IsRun(AsRing(f, depth), RingRun(f, calls))
    ensures Exec(AsRing(f, depth), RingRun(f, calls)) == AsRing(FallbackExec(f, calls), depth)
    decreases |calls|
  {
    hide IsRun, Exec, AsRing, AfterCall, RingEvents;
    if calls == [] {
      NoEvents(AsRing(f, depth));
    } else {
      var next := AfterCall(f, calls[0]);
      FallbackCallRefines(f, calls[0], depth);
      FallbackRunRefines(next, calls[1..], depth);
      RunConcat(AsRing(f, depth), RingEvents(f, calls[0]), RingRun(next, calls[1..]));
    }
  }

  /** A ring as deep as the calls are many always has room, so every run of the fallback
      is a run of some ring reader. */
  lemma {:induction false} DeepRingHasRoom(f: FallbackState, calls: seq<FallbackCall>, depth: nat)
    requires IsFallbackRun(f, calls) && |f.pending| + |calls| <= depth
    ensures HasRoom(f, calls, depth)
    decreases |calls|
  {
    if calls != [] {
      DeepRingHasRoom(AfterCall(f, calls[0]), calls[1..], depth);
    }
  }
}
