/** The read protocol: prepare, submit, poll.  The ring-based reader shares its
    queues with the kernel; the fallback reader runs every read inside submit. */
module ReadProtocol {
  import opened Bits
  import opened OrderStats

  datatype Completion = Completion(userData: nat, result: int)

  function Tags(cs: seq<Completion>): (r: seq<nat>)
    ensures |r| == |cs|
  {
    seq(|cs|, i requires 0 <= i < |cs| => cs[i].userData)
  }

  /** The submission queue, what the kernel holds, and the completion queue. */
  datatype Ring = Ring(depth: nat, sq: seq<nat>, kernel: multiset<nat>, cq: seq<Completion>)

  /** The reader's counters over its ring.  prepared and reaped record the tags of
      every successful prepare and every delivered completion. */
  datatype ReaderState = ReaderState(ring: Ring, prepped: nat, inFlight: nat, prepared: seq<nat>, reaped: seq<nat>)

  function NewReader(depth: nat): ReaderState {
    ReaderState(Ring(depth, [], multiset{}, []), 0, 0, [], [])
  }

  /** A kernel submit answers with an error (negative) or with how many entries it
      took from the front of the queue. */
  predicate SubmitAnswer(ring: Ring, ret: int) {
    ret <= |ring.sq|
  }

  function Taken(ring: Ring, ret: int): Ring
    requires SubmitAnswer(ring, ret)
  {
    if ret <= 0 then ring
    else ring.(sq := ring.sq[ret..], kernel := ring.kernel + multiset(ring.sq[..ret]))
  }

  /** The 32-bit decrement of the in-flight counter. */
  function Decrement(n: nat): nat {
    if n == 0 then UINT32_RANGE - 1 else n - 1
  }

  // ----- the steps -----

  /** Prepares one read, flushing first when the queue is full.  ret is the kernel's
      answer to that flush, and is not looked at when there is room. */
  function AfterPrep(s: ReaderState, tag: nat, ret: int): (r: (ReaderState, bool))
    requires |s.ring.sq| >= s.ring.depth ==> SubmitAnswer(s.ring, ret)
  {
    if |s.ring.sq| < s.ring.depth then (Queued(s, tag), true)
    else if ret < 0 then (s, false)
    else
      var flushed := s.(ring := Taken(s.ring, ret), inFlight := s.inFlight + s.prepped, prepped := 0);
      if |flushed.ring.sq| < s.ring.depth then (Queued(flushed, tag), true) else (flushed, false)
  }

  function Queued(s: ReaderState, tag: nat): ReaderState {
    s.(ring := s.ring.(sq := s.ring.sq + [tag]), prepped := s.prepped + 1, prepared := s.prepared + [tag])
  }

  function AfterSubmit(s: ReaderState, ret: int): (r: (ReaderState, nat))
    requires SubmitAnswer(s.ring, ret)
  {
    if s.prepped == 0 then (s, 0)
    else
      var submitted := if ret > 0 then ret else 0;
      (s.(ring := Taken(s.ring, ret), inFlight := s.inFlight + submitted, prepped := 0), submitted)
  }

  /** The kernel finishes one of the reads it holds. */
  function AfterComplete(s: ReaderState, c: Completion): ReaderState
    requires c.userData in s.ring.kernel
  {
    s.(ring := s.ring.(kernel := s.ring.kernel - multiset{c.userData}, cq := s.ring.cq + [c]))
  }

  /** Reaps the oldest completion. */
  function ReapOne(s: ReaderState): ReaderState
    requires s.ring.cq != []
  {
    s.(ring := s.ring.(cq := s.ring.cq[1..]), inFlight := Decrement(s.inFlight),
       reaped := s.reaped + [s.ring.cq[0].userData])
  }

  function AfterPoll(s: ReaderState, maxCount: nat): ReaderState
    decreases maxCount
  {
    if maxCount == 0 || s.ring.cq == [] then s else AfterPoll(ReapOne(s), maxCount - 1)
  }

  lemma {:induction false} PollStep(s: ReaderState, maxCount: nat)
    requires 0 < maxCount && s.ring.cq != []
    ensures AfterPoll(s, maxCount) == AfterPoll(ReapOne(s), maxCount - 1)
  {
  }

  lemma {:induction false} PollDone(s: ReaderState, maxCount: nat)
    requires maxCount == 0 || s.ring.cq == []
    ensures AfterPoll(s, maxCount) == s
  {
  }

  /** Blocks until a completion is there (waitOk), unless there is nothing to wait
      for or the wait itself fails. */
  function AfterWaitAndPoll(s: ReaderState, maxCount: nat, waitOk: bool): ReaderState
  {
    if maxCount == 0 || s.inFlight == 0 || !waitOk then s else AfterPoll(s, maxCount)
  }

  datatype Event =
    | EvPrep(tag: nat, ret: int)
    | EvSubmit(ret: int)
    | EvComplete(c: Completion)
    | EvPoll(maxCount: nat)
    | EvWaitAndPoll(maxCount: nat, waitOk: bool)

  predicate Enabled(s: ReaderState, e: Event) {
    match e
    case EvPrep(_, ret) => |s.ring.sq| >= s.ring.depth ==> SubmitAnswer(s.ring, ret)
    case EvSubmit(ret) => SubmitAnswer(s.ring, ret)
    case EvComplete(c) => c.userData in s.ring.kernel
    case EvPoll(_) => true
    case EvWaitAndPoll(m, waitOk) => m == 0 || s.inFlight == 0 || !waitOk || s.ring.cq != []
  }

  function Step(s: ReaderState, e: Event): ReaderState
    requires Enabled(s, e)
  {
    match e
    case EvPrep(tag, ret) => AfterPrep(s, tag, ret).0
    case EvSubmit(ret) => AfterSubmit(s, ret).0
    case EvComplete(c) => AfterComplete(s, c)
    case EvPoll(m) => AfterPoll(s, m)
    case EvWaitAndPoll(m, waitOk) => AfterWaitAndPoll(s, m, waitOk)
  }

  /** A run: every event is enabled where it happens. */
  predicate IsRun(s: ReaderState, events: seq<Event>)
    decreases |events|
  {
    events == [] || (Enabled(s, events[0]) && IsRun(Step(s, events[0]), events[1..]))
  }

  function Exec(s: ReaderState, events: seq<Event>): ReaderState
    requires IsRun(s, events)
    decreases |events|
  {
    if events == [] then s else Exec(Step(s, events[0]), events[1..])
  }

  // ----- exactly once -----

  /** Every prepared tag is in exactly one of the queue, the kernel, the completion
      queue and the delivered list. */
  ghost predicate Accounted(s: ReaderState) {
    multiset(s.prepared) ==
      multiset(s.ring.sq) + s.ring.kernel + multiset(Tags(s.ring.cq)) + multiset(s.reaped)
  }

  lemma {:induction false} TakenAccounted(s: ReaderState, ret: int, inFlight: nat)
    requires Accounted(s) && SubmitAnswer(s.ring, ret)
    ensures Accounted(s.(ring := Taken(s.ring, ret), inFlight := inFlight, prepped := 0))
  {
    if ret > 0 {
      SplitBag(s.ring.sq, ret);
    }
  }

  lemma {:induction false} QueuedAccounted(s: ReaderState, tag: nat)
    requires Accounted(s)
    ensures Accounted(Queued(s, tag))
  {
  }

  lemma {:induction false} CompleteAccounted(s: ReaderState, c: Completion)
    requires Accounted(s) && c.userData in s.ring.kernel
    ensures Accounted(AfterComplete(s, c))
  {
    assert Tags(s.ring.cq + [c]) == Tags(s.ring.cq) + [c.userData];
    assert s.ring.kernel == (s.ring.kernel - multiset{c.userData}) + multiset{c.userData};
  }

  lemma {:induction false} ReapAccounted(s: ReaderState)
    requires Accounted(s) && s.ring.cq != []
    ensures Accounted(ReapOne(s))
  {
    assert Tags(s.ring.cq) == [s.ring.cq[0].userData] + Tags(s.ring.cq[1..]);
  }

  lemma {:induction false} PollAccounted(s: ReaderState, maxCount: nat)
    requires Accounted(s)
    ensures Accounted(AfterPoll(s, maxCount))
    decreases maxCount
  {
    if maxCount > 0 && s.ring.cq != [] {
      ReapAccounted(s);
      PollAccounted(ReapOne(s), maxCount - 1);
    }
  }

  lemma {:induction false} StepAccounted(s: ReaderState, e: Event)
    requires Accounted(s) && Enabled(s, e)
    ensures Accounted(Step(s, e))
  {
    match e
    case EvPrep(tag, ret) =>
      if |s.ring.sq| < s.ring.depth {
        QueuedAccounted(s, tag);
      } else if ret >= 0 {
        TakenAccounted(s, ret, s.inFlight + s.prepped);
        QueuedAccounted(s.(ring := Taken(s.ring, ret), inFlight := s.inFlight + s.prepped, prepped := 0), tag);
      }
    case EvSubmit(ret) =>
      TakenAccounted(s, ret, s.inFlight + if ret > 0 then ret else 0);
    case EvComplete(c) => CompleteAccounted(s, c);
    case EvPoll(m) => PollAccounted(s, m);
    case EvWaitAndPoll(m, _) => PollAccounted(s, m);
  }

  /** Exactly once, over every run and whatever the kernel answers: nothing prepared
      is lost or delivered twice. */
  lemma {:induction false} RunsAccount(s: ReaderState, events: seq<Event>)
    requires Accounted(s) && IsRun(s, events)
    ensures Accounted(Exec(s, events))
    decreases |events|
  {
    if events != [] {
      StepAccounted(s, events[0]);
      RunsAccount(Step(s, events[0]), events[1..]);
    }
  }

  /** A drained reader has delivered exactly what was prepared. */
  lemma {:induction false} DrainedMeansDelivered(depth: nat, events: seq<Event>)
    requires IsRun(NewReader(depth), events)
    ensures var s := Exec(NewReader(depth), events);
      s.ring.sq == [] && s.ring.kernel == multiset{} && s.ring.cq == [] ==>
        multiset(s.reaped) == multiset(s.prepared)
  {
    assert Tags([]) == [];
    RunsAccount(NewReader(depth), events);
  }

  // ----- what is delivered -----

  /** How many completions a poll or a successful wait takes off the queue. */
  function PollCount(s: ReaderState, e: Event): (n: nat)
    ensures n <= |s.ring.cq|
  {
    match e
    case EvPoll(m) => Min(m, |s.ring.cq|)
    case EvWaitAndPoll(m, waitOk) => if s.inFlight == 0 || !waitOk then 0 else Min(m, |s.ring.cq|)
    case _ => 0
  }

  /** The completions an event hands to the caller. */
  function Output(s: ReaderState, e: Event): seq<Completion> {
    s.ring.cq[..PollCount(s, e)]
  }

  /** n decrements of a counter that covers them are a subtraction. */
  lemma {:induction false} PollMeans(s: ReaderState, maxCount: nat)
    ensures var n, t := Min(maxCount, |s.ring.cq|), AfterPoll(s, maxCount);
      && t.ring == s.ring.(cq := s.ring.cq[n..])
      && t.reaped == s.reaped + Tags(s.ring.cq[..n])
      && t.prepped == s.prepped && t.prepared == s.prepared
      && (n <= s.inFlight ==> t.inFlight == s.inFlight - n)
    decreases maxCount
  {
    var n := Min(maxCount, |s.ring.cq|);
    if n == 0 {
      assert s.ring.cq[n..] == s.ring.cq && s.reaped + Tags(s.ring.cq[..n]) == s.reaped;
    } else {
      PollMeans(ReapOne(s), maxCount - 1);
      assert s.ring.cq[1..][n - 1..] == s.ring.cq[n..];
      assert [s.ring.cq[0].userData] + Tags(s.ring.cq[1..][..n - 1]) == Tags(s.ring.cq[..n]);
    }
  }

  /** A poll, or a wait that succeeds with something in flight, takes the oldest
      completions off the queue, records each as reaped and counts each out of flight;
      nothing else changes.  Any other wait changes nothing. */
  lemma {:induction false} PollsReap(s: ReaderState, e: Event)
    requires (e.EvPoll? || e.EvWaitAndPoll?) && Enabled(s, e)
    ensures var out, t := Output(s, e), Step(s, e);
      && out + t.ring.cq == s.ring.cq
      && t.reaped == s.reaped + Tags(out)
      && t.ring == s.ring.(cq := t.ring.cq) && t.prepped == s.prepped && t.prepared == s.prepared
      && (|out| <= s.inFlight ==> t.inFlight == s.inFlight - |out|)
    ensures e.EvPoll? ==> |Output(s, e)| == Min(e.maxCount, |s.ring.cq|)
    ensures e.EvWaitAndPoll? && 0 < s.inFlight && e.waitOk ==> |Output(s, e)| == Min(e.maxCount, |s.ring.cq|)
    ensures e.EvWaitAndPoll? && 0 < s.inFlight && e.waitOk && 0 < e.maxCount ==> Output(s, e) != []
    ensures e.EvWaitAndPoll? && (s.inFlight == 0 || !e.waitOk) ==> Step(s, e) == s
  {
    hide AfterPoll;
    PollMeans(s, e.maxCount);
    NoOutput(s);
  }

  lemma {:induction false} NoOutput(s: ReaderState)
    ensures s.ring.cq[..0] == [] && [] + s.ring.cq == s.ring.cq && s.reaped + Tags([]) == s.reaped
    ensures AfterPoll(s, 0) == s
  {
  }

  /** The completions handed out over a run, and those the kernel posted during it. */
  function Outputs(s: ReaderState, events: seq<Event>): seq<Completion>
    requires IsRun(s, events)
    decreases |events|
  {
    if events == [] then [] else Output(s, events[0]) + Outputs(Step(s, events[0]), events[1..])
  }

  function Posted(events: seq<Event>): seq<Completion> {
    if events == [] then []
    else (if events[0].EvComplete? then [events[0].c] else []) + Posted(events[1..])
  }

  lemma {:induction false} StepDelivers(s: ReaderState, e: Event)
    requires Enabled(s, e)
    ensures Step(s, e).reaped == s.reaped + Tags(Output(s, e))
    ensures Output(s, e) + Step(s, e).ring.cq == s.ring.cq + if e.EvComplete? then [e.c] else []
  {
    match e
    case EvPoll(_) => PollsReap(s, e);
    case EvWaitAndPoll(_, _) => PollsReap(s, e);
    case _ => assert s.reaped + Tags([]) == s.reaped;
  }

  /** A run taken apart at its first event. */
  lemma {:induction false} FirstDelivers(s: ReaderState, events: seq<Event>)
    requires events != [] && IsRun(s, events)
    ensures Enabled(s, events[0])
    ensures var e, rest := events[0], events[1..]; var next := Step(s, e);
      && IsRun(next, rest) && Exec(s, events) == Exec(next, rest)
      && Outputs(s, events) == Output(s, e) + Outputs(next, rest)
      && Posted(events) == (if e.EvComplete? then [e.c] else []) + Posted(rest)
  {
  }

  lemma {:induction false} NothingDelivered(s: ReaderState)
    ensures IsRun(s, []) && Exec(s, []) == s && Outputs(s, []) == [] && Posted([]) == []
  {
  }

  /** First in, first out, over every run: all polls and waits together hand out exactly
      what was queued at the start and what the kernel posted since, in that order, less
      what is still queued; and that is what is recorded as reaped. */
  lemma {:induction false} RunsDeliver(s: ReaderState, events: seq<Event>)
    requires IsRun(s, events)
    ensures Outputs(s, events) + Exec(s, events).ring.cq == s.ring.cq + Posted(events)
    ensures Exec(s, events).reaped == s.reaped + Tags(Outputs(s, events))
    decreases |events|
  {
    hide Step, Output, Enabled, Tags, Outputs, Posted, Exec, IsRun;
    if events == [] {
      NoOutput(s);
      NothingDelivered(s);
    } else {
      var e, rest := events[0], events[1..];
      FirstDelivers(s, events);
      var next := Step(s, e);
      StepDelivers(s, e);
      RunsDeliver(next, rest);
      TagsConcat(Output(s, e), Outputs(next, rest));
      Chained(Output(s, e), Outputs(next, rest), Exec(next, rest).ring.cq, next.ring.cq, s.ring.cq,
              if e.EvComplete? then [e.c] else [], Posted(rest));
    }
  }

  lemma {:induction false} TagsConcat(a: seq<Completion>, b: seq<Completion>)
    ensures Tags(a + b) == Tags(a) + Tags(b)
  {
  }

  lemma {:induction false} Chained<T>(a: seq<T>, b: seq<T>, end: seq<T>, mid: seq<T>, start: seq<T>, p: seq<T>, q: seq<T>)
    requires a + mid == start + p && b + end == mid + q
    ensures (a + b) + end == start + (p + q)
  {
    assert (a + b) + end == a + (b + end) == (a + mid) + q;
  }

  // ----- what is submitted -----

  /** The count a submit returns is how many requests left the queue, from its front,
      for the kernel, and how many more are in flight. */
  lemma {:induction false} SubmitReports(s: ReaderState, ret: int)
    requires SubmitAnswer(s.ring, ret)
    ensures var (t, n) := AfterSubmit(s, ret);
      && n <= |s.ring.sq|
      && t.ring == s.ring.(sq := s.ring.sq[n..], kernel := s.ring.kernel + multiset(s.ring.sq[..n]))
      && t.inFlight == s.inFlight + n && t.prepped == 0
      && t.prepared == s.prepared && t.reaped == s.reaped
      && n == (if s.prepped == 0 || ret < 0 then 0 else ret) && (s.prepped == 0 ==> t == s)
  {
    assert s.ring.sq[0..] == s.ring.sq && s.ring.kernel + multiset(s.ring.sq[..0]) == s.ring.kernel;
  }

  /** A prepare succeeds exactly when the request is queued, behind all others; a failed one
      prepares nothing, and if even the flush failed changes nothing. */
  lemma {:induction false} PrepReports(s: ReaderState, tag: nat, ret: int)
    requires |s.ring.sq| >= s.ring.depth ==> SubmitAnswer(s.ring, ret)
    ensures var (t, ok) := AfterPrep(s, tag, ret);
      && t.prepared == (if ok then s.prepared + [tag] else s.prepared)
      && (ok ==> t.ring.sq != [] && t.ring.sq[|t.ring.sq| - 1] == tag && |t.ring.sq| <= s.ring.depth)
      && (ok <==> |s.ring.sq| < s.ring.depth || (0 <= ret && |s.ring.sq| - ret < s.ring.depth))
      && (|s.ring.sq| >= s.ring.depth && ret < 0 ==> t == s)
      && t.reaped == s.reaped && t.ring.cq == s.ring.cq
  {
  }

  /** A new reader has nothing anywhere: every law of the runs holds of it. */
  lemma {:induction false} NewReaderStarts(depth: nat)
    ensures var s := NewReader(depth);
      && Accounted(s) && CountersExact(s) && QueueIsLatest(s)
      && s.ring.depth == depth && s.prepared == [] && s.reaped == [] && s.ring.cq == [] && s.ring.kernel == multiset{}
  {
    assert Tags([]) == [];
  }

  /** What is queued is what was prepared last, in order: submits take the oldest. */
  ghost predicate QueueIsLatest(s: ReaderState) {
    |s.ring.sq| <= |s.prepared| && s.prepared[|s.prepared| - |s.ring.sq|..] == s.ring.sq
  }

  lemma {:induction false} TakenIsLatest(s: ReaderState, ret: int)
    requires QueueIsLatest(s) && SubmitAnswer(s.ring, ret)
    ensures var sq := Taken(s.ring, ret).sq;
      |sq| <= |s.prepared| && s.prepared[|s.prepared| - |sq|..] == sq
  {
    if ret > 0 {
      var p := s.prepared;
      assert p[|p| - |s.ring.sq|..][ret..] == p[|p| - |s.ring.sq| + ret..];
    }
  }

  lemma {:induction false} StepKeepsLatest(s: ReaderState, e: Event)
    requires QueueIsLatest(s) && Enabled(s, e)
    ensures QueueIsLatest(Step(s, e))
  {
    hide AfterPoll, Taken;
    match e
    case EvPrep(tag, ret) =>
      if |s.ring.sq| >= s.ring.depth && ret >= 0 {
        TakenIsLatest(s, ret);
      }
    case EvSubmit(ret) => TakenIsLatest(s, ret);
    case EvPoll(m) => PollKeepsQueue(s, m);
    case EvWaitAndPoll(m, _) => PollKeepsQueue(s, m);
    case EvComplete(_) =>
  }

  lemma {:induction false} PollKeepsQueue(s: ReaderState, m: nat)
    ensures AfterPoll(s, m).ring.sq == s.ring.sq && AfterPoll(s, m).prepared == s.prepared
  {
    PollMeans(s, m);
  }

  lemma {:induction false} RunsKeepLatest(s: ReaderState, events: seq<Event>)
    requires QueueIsLatest(s) && IsRun(s, events)
    ensures QueueIsLatest(Exec(s, events))
    decreases |events|
  {
    hide QueueIsLatest, Step;
    if events != [] {
      StepKeepsLatest(s, events[0]);
      RunsKeepLatest(Step(s, events[0]), events[1..]);
    }
  }

  // ----- the counters -----

  /** prepped is the queue length and inFlight is what was submitted and not reaped. */
  ghost predicate CountersExact(s: ReaderState) {
    s.prepped == |s.ring.sq| && s.inFlight == |s.ring.kernel| + |s.ring.cq|
  }

  /** The kernel's answer to the submit this event makes, if it makes one, takes the
      whole queue (or, for the flush inside prepare, may also be an error). */
  predicate TakesWhole(s: ReaderState, e: Event) {
    match e
    case EvPrep(_, ret) => |s.ring.sq| >= s.ring.depth && s.ring.sq != [] ==> ret < 0 || ret == |s.ring.sq|
    case EvSubmit(ret) => s.ring.sq != [] ==> ret == |s.ring.sq|
    case _ => true
  }

  lemma {:induction false} TakenSizes(ring: Ring, ret: int)
    requires SubmitAnswer(ring, ret)
    ensures |Taken(ring, ret).sq| == |ring.sq| - if ret > 0 then ret else 0
    ensures |Taken(ring, ret).kernel| == |ring.kernel| + if ret > 0 then ret else 0
  {
    if ret > 0 {
      assert |multiset(ring.sq[..ret])| == ret;
    }
  }

  lemma {:induction false} PollCounters(s: ReaderState, maxCount: nat)
    requires CountersExact(s)
    ensures CountersExact(AfterPoll(s, maxCount))
    ensures AfterPoll(s, maxCount).inFlight == s.inFlight - Min(maxCount, |s.ring.cq|)
    decreases maxCount
  {
    if maxCount > 0 && s.ring.cq != [] {
      PollCounters(ReapOne(s), maxCount - 1);
    }
  }

  /** A step keeps the counters exact if and only if its kernel submit takes the
      whole queue; polling never underflows the in-flight counter. */
  lemma {:induction false} CountersStayExact(s: ReaderState, e: Event)
    requires 1 <= s.ring.depth && CountersExact(s) && Enabled(s, e)
    ensures CountersExact(Step(s, e)) <==> TakesWhole(s, e)
  {
    match e
    case EvPrep(tag, ret) =>
      if |s.ring.sq| >= s.ring.depth && ret >= 0 {
        TakenSizes(s.ring, ret);
      }
    case EvSubmit(ret) => TakenSizes(s.ring, ret);
    case EvComplete(c) =>
      assert s.ring.kernel == (s.ring.kernel - multiset{c.userData}) + multiset{c.userData};
    case EvPoll(m) => PollCounters(s, m);
    case EvWaitAndPoll(m, _) => PollCounters(s, m);
  }

  /** Every submit of the run takes the whole queue. */
  predicate AllWhole(s: ReaderState, events: seq<Event>)
    requires IsRun(s, events)
    decreases |events|
  {
    events == [] || (TakesWhole(s, events[0]) && AllWhole(Step(s, events[0]), events[1..]))
  }

  lemma {:induction false} DepthKept(s: ReaderState, e: Event)
    requires Enabled(s, e)
    ensures Step(s, e).ring.depth == s.ring.depth
  {
    match e
    case EvPoll(m) => PollDepth(s, m);
    case EvWaitAndPoll(m, _) => PollDepth(s, m);
    case _ =>
  }

  lemma {:induction false} PollDepth(s: ReaderState, m: nat)
    ensures AfterPoll(s, m).ring.depth == s.ring.depth
    decreases m
  {
    if m > 0 && s.ring.cq != [] {
      PollDepth(ReapOne(s), m - 1);
    }
  }

  /** Over every run in which the kernel takes whole queues, prepped_ is the queue
      length and in_flight_ counts what was submitted and not yet reaped. */
  lemma {:induction false} RunsKeepCounters(s: ReaderState, events: seq<Event>)
    requires 1 <= s.ring.depth && CountersExact(s) && IsRun(s, events) && AllWhole(s, events)
    ensures CountersExact(Exec(s, events))
    decreases |events|
  {
    if events != [] {
      CountersStayExact(s, events[0]);
      DepthKept(s, events[0]);
      RunsKeepCounters(Step(s, events[0]), events[1..]);
    }
  }

  /** The counters are exact in every state of the run. */
  ghost predicate ExactThroughout(s: ReaderState, events: seq<Event>)
    requires IsRun(s, events)
    decreases |events|
  {
    CountersExact(s) && (events == [] || ExactThroughout(Step(s, events[0]), events[1..]))
  }

  /** From an exact state, the counters stay exact throughout a run if and only if
      every kernel submit of the run takes the whole queue. */
  lemma {:induction false} ExactRuns(s: ReaderState, events: seq<Event>)
    requires 1 <= s.ring.depth && CountersExact(s) && IsRun(s, events)
    ensures ExactThroughout(s, events) <==> AllWhole(s, events)
    decreases |events|
  {
    if events != [] {
      CountersStayExact(s, events[0]);
      if TakesWhole(s, events[0]) {
        DepthKept(s, events[0]);
        ExactRuns(Step(s, events[0]), events[1..]);
      }
    }
  }

  /** Without that, the counter can go wrong for good: after a failed submit, a
      flush under-counts what it hands over, and reaping wraps in_flight_ below
      zero. */
  lemma {:induction false} FailedSubmitUnderflows()
    ensures exists events :: IsRun(NewReader(1), events) && Exec(NewReader(1), events).inFlight == UINT32_RANGE - 1
  {
    hide IsRun, Exec;
    var queued := Step(NewReader(1), EvPrep(1, 0));
    assert queued.ring.sq == [1];
    var tail := AfterFailedSubmit(Step(queued, EvSubmit(-1)));
    RunStep(queued, EvSubmit(-1), tail);
    RunStep(NewReader(1), EvPrep(1, 0), [EvSubmit(-1)] + tail);
    var events := [EvPrep(1, 0)] + ([EvSubmit(-1)] + tail);
    assert IsRun(NewReader(1), events) && Exec(NewReader(1), events).inFlight == UINT32_RANGE - 1;
  }

  /** What goes wrong after the failed submit. */
  lemma {:induction false} AfterFailedSubmit(stale: ReaderState) returns (events: seq<Event>)
    requires stale.ring.depth == 1 && stale.ring.sq == [1] && stale.ring.cq == []
    requires stale.prepped == 0 && stale.inFlight == 0
    ensures IsRun(stale, events) && Exec(stale, events).inFlight == UINT32_RANGE - 1
  {
    hide IsRun, Exec, Step;
    var c := Completion(1, 0);
    var flushed := FlushAfterFailure(stale);
    var done := CompleteUncounted(flushed, c);
    OneEvent(done, EvPoll(1));
    RunStep(flushed, EvComplete(c), [EvPoll(1)]);
    events := [EvPrep(2, 1)] + ([EvComplete(c)] + [EvPoll(1)]);
    RunStep(stale, EvPrep(2, 1), [EvComplete(c)] + [EvPoll(1)]);
  }

  /** A read left in the queue by a failed submit reaches the kernel uncounted. */
  lemma {:induction false} FlushAfterFailure(stale: ReaderState) returns (flushed: ReaderState)
    requires stale.ring.depth == 1 && stale.ring.sq == [1] && stale.ring.cq == []
    requires stale.prepped == 0 && stale.inFlight == 0
    ensures Enabled(stale, EvPrep(2, 1)) && flushed == Step(stale, EvPrep(2, 1))
    ensures flushed.inFlight == 0 && 1 in flushed.ring.kernel && flushed.ring.cq == []
  {
    assert stale.ring.sq[..1] == [1] && Taken(stale.ring, 1).sq == [];
    assert 1 in multiset(stale.ring.sq[..1]);
    flushed := Step(stale, EvPrep(2, 1));
  }

  /** Its completion then takes the counter below zero. */
  lemma {:induction false} CompleteUncounted(flushed: ReaderState, c: Completion) returns (done: ReaderState)
    requires flushed.inFlight == 0 && c.userData in flushed.ring.kernel && flushed.ring.cq == []
    ensures Enabled(flushed, EvComplete(c)) && done == Step(flushed, EvComplete(c))
    ensures Step(done, EvPoll(1)).inFlight == UINT32_RANGE - 1
  {
    done := AfterComplete(flushed, c);
    assert done.ring.cq == [c];
    assert AfterPoll(done, 1) == AfterPoll(ReapOne(done), 0);
  }

  lemma {:induction false} NoEvents(s: ReaderState)
    ensures IsRun(s, []) && Exec(s, []) == s
  {
  }

  lemma {:induction false} RunStep(s: ReaderState, e: Event, rest: seq<Event>)
    requires Enabled(s, e) && IsRun(Step(s, e), rest)
    ensures IsRun(s, [e] + rest) && Exec(s, [e] + rest) == Exec(Step(s, e), rest)
  {
    assert ([e] + rest)[1..] == rest;
  }

  lemma {:induction false} OneEvent(s: ReaderState, e: Event)
    requires Enabled(s, e)
    ensures IsRun(s, [e]) && Exec(s, [e]) == Step(s, e)
  {
    NoEvents(Step(s, e));
    RunStep(s, e, []);
    assert [e] + [] == [e];
  }

  /** One run after another. */
  lemma {:induction false} RunConcat(s: ReaderState, a: seq<Event>, b: seq<Event>)
    requires IsRun(s, a) && IsRun(Exec(s, a), b)
    ensures IsRun(s, a + b) && Exec(s, a + b) == Exec(Exec(s, a), b)
    decreases |a|
  {
    if a == [] {
      assert a + b == b;
    } else {
      var next := Step(s, a[0]);
      RunConcat(next, a[1..], b);
      RunStep(s, a[0], a[1..] + b);
      assert a + b == [a[0]] + (a[1..] + b);
    }
  }
}
