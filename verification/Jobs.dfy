/**
 * The one-worker job queue of the studio (apps/studio/main.cpp): the interface thread and the worker
 * as a state machine whose steps are the sections held under a lock and the actions between them.
 */
module Jobs {
  import opened Bytes

  type DocId = nat

  datatype Job = Job(id: nat, doc: DocId)

  datatype Worker = Waiting | Holding(job: Job) | Worked(job: Job) | Exited

  /** A panel that reads a document, and whether it has submitted a job for it since it began to. */
  datatype Panel = Panel(doc: DocId, sent: bool)

  /**
   * What the interface thread is doing; `closing` tells the last drain from the one per frame. A job is
   * submitted from a menu or by a panel, which then goes on reading. A window reads a document's path
   * for its title before it looks whether the document is busy.
   */
  datatype Ui =
    | Idle
    | Submitting(job: Job, panel: Option<Panel>)
    | Applying(job: Job, closing: bool)
    | Touching(reader: Panel)
    | Peeking(doc: DocId)
    | Joining
    | Draining
    | Closed

  /** The globals, the documents, and what has been submitted, run and applied so far. */
  datatype State = State(docs: set<DocId>, busy: set<DocId>, queue: seq<Job>, worker: Worker, done: seq<Job>,
                         ui: Ui, quit: bool, submitted: seq<Job>, ran: seq<Job>, applied: seq<Job>)

  datatype Action =
    | MarkBusy(doc: DocId)      // submit_job, before the lock
    | Push                      // submit_job, under the lock
    | Take                      // worker_main: the wait is over
    | Work
    | Finish                    // worker_main: onto the done list
    | Exit                      // worker_main: quitting and fully drained
    | Pop                       // drain_done_jobs, under the lock
    | Apply                     // drain_done_jobs, after it
    | Touch(doc: DocId)         // a panel, or a window past its test, reading a document's core state
    | Peek(doc: DocId)          // draw_document_window, before its test
    | Leave
    | OpenDoc(doc: DocId)
    | Reap(doc: DocId)
    | RequestQuit               // shutdown_worker
    | Join
    | Close

  const INITIAL := State({}, {}, [], Waiting, [], Idle, false, [], [], [])

  predicate Enabled(s: State, a: Action) {
    match a
    case MarkBusy(d) => (s.ui.Idle? || s.ui.Touching?) && d in s.docs && d !in s.busy
    case Push => s.ui.Submitting?
    case Take => s.worker.Waiting? && s.queue != []
    case Work => s.worker.Holding?
    case Finish => s.worker.Worked?
    case Exit => s.worker.Waiting? && s.queue == [] && s.quit
    case Pop => (s.ui.Idle? || s.ui.Draining?) && s.done != []
    case Apply => s.ui.Applying?
    case Touch(d) => (s.ui.Idle? || s.ui == Peeking(d)) && d in s.docs && d !in s.busy
    case Peek(d) => s.ui.Idle? && d in s.docs
    case Leave => s.ui.Touching? || s.ui.Peeking?
    case OpenDoc(d) => s.ui.Idle? && d !in s.docs
    case Reap(d) => s.ui.Idle? && d in s.docs && d !in s.busy
    case RequestQuit => s.ui.Idle?
    case Join => s.ui.Joining? && s.worker.Exited?
    case Close => s.ui.Draining? && s.done == []
  }

  /** The panel that submits a job for `d`, if a panel does. */
  function ReaderAfter(s: State, d: DocId): Option<Panel> {
    if s.ui.Touching? then Some(Panel(s.ui.reader.doc, s.ui.reader.sent || d == s.ui.reader.doc)) else None
  }

  /** After submitting, the panel reads on. */
  function BackTo(panel: Option<Panel>): Ui {
    if panel.Some? then Touching(panel.value) else Idle
  }

  function Do(s: State, a: Action): State
    requires Enabled(s, a)
  {
    match a
    case MarkBusy(d) => s.(busy := s.busy + {d}, ui := Submitting(Job(|s.submitted|, d), ReaderAfter(s, d)))
    case Push => s.(queue := s.queue + [s.ui.job], submitted := s.submitted + [s.ui.job], ui := BackTo(s.ui.panel))
    case Take => s.(worker := Holding(s.queue[0]), queue := s.queue[1..])
    case Work => s.(worker := Worked(s.worker.job), ran := s.ran + [s.worker.job])
    case Finish => s.(worker := Waiting, done := s.done + [s.worker.job])
    case Exit => s.(worker := Exited)
    case Pop => s.(ui := Applying(s.done[0], s.ui.Draining?), done := s.done[1..])
    case Apply => s.(busy := s.busy - {s.ui.job.doc}, applied := s.applied + [s.ui.job], ui := if s.ui.closing then Draining else Idle)
    case Touch(d) => s.(ui := Touching(Panel(d, false)))
    case Peek(d) => s.(ui := Peeking(d))
    case Leave => s.(ui := Idle)
    case OpenDoc(d) => s.(docs := s.docs + {d})
    case Reap(d) => s.(docs := s.docs - {d})
    case RequestQuit => s.(quit := true, ui := Joining)
    case Join => s.(ui := Draining)
    case Close => s.(ui := Closed, docs := {})
  }

  // ------------------------------------------------------------ the invariant

  function InHand(s: State): seq<Job> {
    if s.worker.Holding? || s.worker.Worked? then [s.worker.job] else []
  }

  function BeingApplied(s: State): seq<Job> {
    if s.ui.Applying? then [s.ui.job] else []
  }

  /** Submitted and not yet applied, oldest first. */
  function Outstanding(s: State): seq<Job> {
    BeingApplied(s) + s.done + InHand(s) + s.queue
  }

  /** Every job that refers to a document right now. */
  function Referring(s: State): seq<Job> {
    Outstanding(s) + if s.ui.Submitting? then [s.ui.job] else []
  }

  ghost predicate DistinctDocs(jobs: seq<Job>) {
    forall i, j :: 0 <= i < j < |jobs| ==> jobs[i].doc != jobs[j].doc
  }

  ghost function DocsOf(jobs: seq<Job>): set<DocId> {
    set j | j in jobs :: j.doc
  }

  ghost predicate Closing(s: State) {
    s.ui.Joining? || s.ui.Draining? || s.ui.Closed? || (s.ui.Applying? && s.ui.closing)
  }

  /** The four places make up one line of jobs: what was submitted is what was applied, then these. */
  ghost predicate InLine(s: State) {
    && s.submitted == s.applied + Outstanding(s)
    && s.ran == s.applied + (BeingApplied(s) + s.done + if s.worker.Worked? then [s.worker.job] else [])
  }

  /** A document is busy exactly when a job refers to it, and then only one does. */
  ghost predicate Owned(s: State) {
    DistinctDocs(Referring(s)) && DocsOf(Referring(s)) == s.busy && s.busy <= s.docs
  }

  ghost predicate Shutting(s: State) {
    && (s.quit <==> Closing(s))
    && (s.worker.Exited? ==> s.quit && s.queue == [])
    && (s.ui.Draining? || s.ui.Closed? || (s.ui.Applying? && s.ui.closing) ==> s.worker.Exited?)
    && (s.ui.Closed? ==> s.done == [])
  }

  /** The panel that is reading, if there is one. */
  function Reader(s: State): Option<Panel> {
    if s.ui.Touching? then Some(s.ui.reader) else if s.ui.Submitting? then s.ui.panel else None
  }

  /** What a panel reads is there, and is busy exactly when the panel has itself submitted a job for it. */
  ghost predicate ReaderKnows(s: State) {
    Reader(s).Some? ==> Reader(s).value.doc in s.docs && (Reader(s).value.doc in s.busy <==> Reader(s).value.sent)
  }

  ghost predicate Inv(s: State) {
    InLine(s) && Owned(s) && Shutting(s) && ReaderKnows(s)
  }

  // ------------------------------------------------------------ every step keeps it

  lemma LineByTake(s: State)
    requires Enabled(s, Take) && InLine(s)
    ensures InLine(Do(s, Take))
  {
    var t := Do(s, Take);
    assert s.queue == [s.queue[0]] + s.queue[1..];
    assert BeingApplied(t) == BeingApplied(s) && InHand(s) == [];
    assert Outstanding(t) == Outstanding(s);
  }

  lemma LineByWork(s: State)
    requires Enabled(s, Work) && InLine(s)
    ensures InLine(Do(s, Work))
  {
    var t := Do(s, Work);
    var front := BeingApplied(s) + s.done;
    assert BeingApplied(t) == BeingApplied(s) && InHand(t) == InHand(s);
    assert t.applied + (front + [s.worker.job]) == (s.applied + (front + [])) + [s.worker.job];
  }

  lemma LineByFinish(s: State)
    requires Enabled(s, Finish) && InLine(s)
    ensures InLine(Do(s, Finish))
  {
    var t := Do(s, Finish);
    var front, j := BeingApplied(s) + s.done, s.worker.job;
    assert BeingApplied(t) == BeingApplied(s) && InHand(t) == [] && InHand(s) == [j];
    assert BeingApplied(t) + t.done == front + [j];
    assert Outstanding(t) == front + [j] + [] + s.queue;
    assert (front + [j]) + [] == front + [j];
  }

  lemma LineByPush(s: State)
    requires Enabled(s, Push) && InLine(s)
    ensures InLine(Do(s, Push))
  {
    var t := Do(s, Push);
    assert BeingApplied(t) == BeingApplied(s) == [] && InHand(t) == InHand(s);
    assert Outstanding(t) == Outstanding(s) + [s.ui.job];
    assert t.applied + Outstanding(t) == (s.applied + Outstanding(s)) + [s.ui.job];
  }

  lemma LineByPop(s: State)
    requires Enabled(s, Pop) && InLine(s)
    ensures InLine(Do(s, Pop))
  {
    var t := Do(s, Pop);
    assert s.done == [s.done[0]] + s.done[1..];
    assert BeingApplied(t) + t.done == BeingApplied(s) + s.done;
    assert InHand(t) == InHand(s);
  }

  lemma LineByApply(s: State)
    requires Enabled(s, Apply) && InLine(s)
    ensures InLine(Do(s, Apply))
  {
    var t := Do(s, Apply);
    ApplyRest(s, t);
    ApplyRan(s, t);
  }

  lemma LineKept(s: State, a: Action)
    requires Enabled(s, a) && InLine(s) && Shutting(s)
    ensures InLine(Do(s, a))
  {
    if a.Take? {
      LineByTake(s);
    } else if a.Work? {
      LineByWork(s);
    } else if a.Finish? {
      LineByFinish(s);
    } else if a.Push? {
      LineByPush(s);
    } else if a.Pop? {
      LineByPop(s);
    } else if a.Apply? {
      LineByApply(s);
    } else {
      assert Outstanding(Do(s, a)) == Outstanding(s);
    }
  }

  lemma ApplyRest(s: State, t: State)
    requires s.ui.Applying? && t == s.(ui := t.ui, busy := t.busy, applied := s.applied + [s.ui.job]) && !t.ui.Applying?
    ensures t.applied + Outstanding(t) == s.applied + Outstanding(s)
  {
    var rest := s.done + InHand(s) + s.queue;
    assert Outstanding(s) == [s.ui.job] + rest;
    assert Outstanding(t) == rest;
    assert t.applied + rest == s.applied + ([s.ui.job] + rest);
  }

  lemma ApplyRan(s: State, t: State)
    requires s.ui.Applying? && t.applied == s.applied + [s.ui.job] && !t.ui.Applying? && t.done == s.done && t.worker == s.worker
    ensures var tail := if s.worker.Worked? then [s.worker.job] else [];
      t.applied + (BeingApplied(t) + t.done + tail) == s.applied + (BeingApplied(s) + s.done + tail)
  {
    var tail := if s.worker.Worked? then [s.worker.job] else [];
    assert BeingApplied(s) + s.done + tail == [s.ui.job] + (s.done + tail);
    assert BeingApplied(t) + t.done + tail == s.done + tail;
  }

  lemma SameReferring(s: State, t: State)
    requires Owned(s) && Referring(t) == Referring(s) && t.busy == s.busy && s.busy <= t.docs
    ensures Owned(t)
  {
  }

  lemma AddRef(jobs: seq<Job>, j: Job)
    requires DistinctDocs(jobs) && j.doc !in DocsOf(jobs)
    ensures DistinctDocs(jobs + [j]) && DocsOf(jobs + [j]) == DocsOf(jobs) + {j.doc}
  {
    forall i | 0 <= i < |jobs| ensures jobs[i].doc != j.doc { assert jobs[i] in jobs; }
    assert forall x :: x in jobs + [j] <==> x in jobs || x == j;
  }

  lemma DropRef(j: Job, jobs: seq<Job>)
    requires DistinctDocs([j] + jobs)
    ensures DistinctDocs(jobs) && DocsOf(jobs) == DocsOf([j] + jobs) - {j.doc}
  {
    var all := [j] + jobs;
    forall i, k | 0 <= i < k < |jobs| ensures jobs[i].doc != jobs[k].doc {
      assert all[i + 1].doc != all[k + 1].doc;
    }
    forall x | x in jobs ensures x.doc != j.doc {
      var i :| 0 <= i < |jobs| && jobs[i] == x;
      assert all[0].doc != all[i + 1].doc;
    }
    assert forall x :: x in all <==> x in jobs || x == j;
  }

  /** Most steps only move a job from one place to the next. */
  lemma MovesOnly(s: State, a: Action)
    requires Enabled(s, a) && Shutting(s) && !a.MarkBusy? && !a.Apply? && !a.Close?
    ensures Referring(Do(s, a)) == Referring(s)
  {
    match a
    case Push => PushMoves(s);
    case Take => TakeMoves(s);
    case Finish => FinishMoves(s);
    case Pop => PopMoves(s);
    case _ =>
  }

  lemma PushMoves(s: State)
    requires Enabled(s, Push)
    ensures Referring(Do(s, Push)) == Referring(s)
  {
    assert Outstanding(Do(s, Push)) == Outstanding(s) + [s.ui.job];
  }

  lemma TakeMoves(s: State)
    requires Enabled(s, Take)
    ensures Referring(Do(s, Take)) == Referring(s)
  {
    var t := Do(s, Take);
    assert InHand(t) + t.queue == InHand(s) + s.queue;
    assert forall u: State :: BeingApplied(u) + u.done + (InHand(u) + u.queue) == Outstanding(u);
    assert BeingApplied(t) + t.done == BeingApplied(s) + s.done;
  }

  lemma FinishMoves(s: State)
    requires Enabled(s, Finish)
    ensures Referring(Do(s, Finish)) == Referring(s)
  {
    var t := Do(s, Finish);
    assert BeingApplied(t) + t.done + InHand(t) == BeingApplied(s) + s.done + InHand(s);
  }

  lemma PopMoves(s: State)
    requires Enabled(s, Pop) && Shutting(s)
    ensures Referring(Do(s, Pop)) == Referring(s)
  {
    var t := Do(s, Pop);
    assert BeingApplied(t) + t.done == BeingApplied(s) + s.done by { assert s.done == [s.done[0]] + s.done[1..]; }
  }

  lemma OwnedKept(s: State, a: Action)
    requires Enabled(s, a) && Inv(s)
    ensures Owned(Do(s, a))
  {
    hide InLine, DistinctDocs, DocsOf;
    if a.MarkBusy? || a.Apply? || a.Close? {
      OwnershipChanges(s, a);
    } else {
      MovesOnly(s, a);
      SameReferring(s, Do(s, a));
    }
  }

  lemma OwnershipChanges(s: State, a: Action)
    requires Enabled(s, a) && Inv(s) && (a.MarkBusy? || a.Apply? || a.Close?)
    ensures Owned(Do(s, a))
  {
    match a
    case MarkBusy(d) => OwnedByMarking(s, d);
    case Apply => OwnedByApplying(s);
    case Close => OwnedByClosing(s);
  }

  lemma OwnedByMarking(s: State, d: DocId)
    requires Enabled(s, MarkBusy(d)) && Owned(s)
    ensures Owned(Do(s, MarkBusy(d)))
  {
    hide DistinctDocs, DocsOf;
    var t, j := Do(s, MarkBusy(d)), Job(|s.submitted|, d);
    assert Outstanding(t) == Outstanding(s);
    assert Referring(s) == Outstanding(s);
    AddRef(Referring(s), j);
  }

  lemma OwnedByApplying(s: State)
    requires Enabled(s, Apply) && Owned(s)
    ensures Owned(Do(s, Apply))
  {
    hide DistinctDocs, DocsOf;
    var t := Do(s, Apply);
    assert Referring(s) == [s.ui.job] + Referring(t);
    DropRef(s.ui.job, Referring(t));
  }

  lemma OwnedByClosing(s: State)
    requires Enabled(s, Close) && Owned(s) && Shutting(s)
    ensures Owned(Do(s, Close))
  {
    hide DistinctDocs, DocsOf;
    assert Referring(s) == [] && Referring(Do(s, Close)) == [];
    NoRefs();
  }

  lemma NoRefs()
    ensures DocsOf([]) == {} && DistinctDocs([])
  {
  }

  lemma StepKeeps(s: State, a: Action)
    requires Enabled(s, a) && Inv(s)
    ensures Inv(Do(s, a))
  {
    hide InLine, Owned;
    LineKept(s, a);
    OwnedKept(s, a);
    ReaderKept(s, a);
  }

  /** While a panel reads a document, nothing but a job of its own makes it busy, and nothing erases it. */
  lemma ReaderKept(s: State, a: Action)
    requires Enabled(s, a) && ReaderKnows(s)
    ensures ReaderKnows(Do(s, a))
  {
  }

  // ------------------------------------------------------------ every run

  ghost predicate Possible(s: State, run: seq<Action>)
    decreases |run|
  {
    run == [] || (Enabled(s, run[0]) && Possible(Do(s, run[0]), run[1..]))
  }

  ghost function Final(s: State, run: seq<Action>): State
    requires Possible(s, run)
    decreases |run|
  {
    if run == [] then s else Final(Do(s, run[0]), run[1..])
  }

  lemma {:induction false} RunKeeps(s: State, run: seq<Action>)
    requires Possible(s, run) && Inv(s)
    ensures Inv(Final(s, run))
    decreases |run|
  {
    hide Inv, Enabled, Do;
    if run != [] {
      StepKeeps(s, run[0]);
      RunKeeps(Do(s, run[0]), run[1..]);
    }
  }

  lemma InitiallyHolds()
    ensures Inv(INITIAL)
  {
    NoRefs();
    assert Referring(INITIAL) == [];
  }

  /** How many of these jobs are for a document. */
  ghost function CountFor(jobs: seq<Job>, d: DocId): nat {
    if jobs == [] then 0 else (if jobs[0].doc == d then 1 else 0) + CountFor(jobs[1..], d)
  }

  lemma {:induction false} CountIs(jobs: seq<Job>, d: DocId)
    requires DistinctDocs(jobs)
    ensures CountFor(jobs, d) == if d in DocsOf(jobs) then 1 else 0
  {
    if jobs != [] {
      assert jobs == [jobs[0]] + jobs[1..];
      DropRef(jobs[0], jobs[1..]);
      CountIs(jobs[1..], d);
    }
  }

  /** Some job refers to the document. */
  ghost predicate Refers(s: State, d: DocId) {
    exists j :: j in Referring(s) && j.doc == d
  }

  lemma RefersIsBusy(s: State, d: DocId)
    requires Owned(s)
    ensures Refers(s, d) <==> d in s.busy
  {
    if d in s.busy {
      assert d in DocsOf(Referring(s));
    }
    if Refers(s, d) {
      var j :| j in Referring(s) && j.doc == d;
      assert j.doc in DocsOf(Referring(s));
    }
  }

  /**
   * In every reachable state where the interface thread is between operations, a document is busy
   * exactly when one job for it - and never two - is queued, in the worker's hand or done; and no job
   * refers to a document that is gone.
   */
  lemma BusyMeansOneJob(run: seq<Action>, d: DocId)
    requires Possible(INITIAL, run)
    ensures var s := Final(INITIAL, run);
      (s.ui.Idle? ==> CountFor(s.done + InHand(s) + s.queue, d) == if d in s.busy then 1 else 0) &&
      (forall j :: j in Referring(s) ==> j.doc in s.docs)
  {
    hide Possible, Final, InLine, Referring, CountFor, DistinctDocs;
    InitiallyHolds();
    RunKeeps(INITIAL, run);
    var s := Final(INITIAL, run);
    CountIs(Referring(s), d);
    IdleRefers(s);
    forall j | j in Referring(s) ensures j.doc in s.busy { assert j.doc in DocsOf(Referring(s)); }
  }

  lemma IdleRefers(s: State)
    ensures s.ui.Idle? ==> Referring(s) == s.done + InHand(s) + s.queue
  {
  }

  // ------------------------------------------------------------ reading beside the worker

  /** Since a panel last began to read, a job for `d` has been submitted. */
  ghost predicate SentSinceTouch(run: seq<Action>, d: DocId) {
    run != [] && !run[|run| - 1].Touch? &&
    (run[|run| - 1] == MarkBusy(d) || SentSinceTouch(run[..|run| - 1], d))
  }

  lemma {:induction false} LastStep(s: State, run: seq<Action>, a: Action)
    requires Possible(s, run + [a])
    ensures Possible(s, run) && Enabled(Final(s, run), a) && Final(s, run + [a]) == Do(Final(s, run), a)
    decreases |run|
  {
    hide Enabled, Do;
    var all := run + [a];
    if run == [] {
      assert all == [a] && all[1..] == [];
      assert Final(Do(s, a), []) == Do(s, a);
    } else {
      assert all[1..] == run[1..] + [a];
      LastStep(Do(s, run[0]), run[1..], a);
    }
  }

  /** The panel's note of what it has submitted is what the run says. */
  lemma {:induction false} SentIsNoted(run: seq<Action>)
    requires Possible(INITIAL, run)
    ensures var r := Reader(Final(INITIAL, run)); r.Some? ==> (r.value.sent <==> SentSinceTouch(run, r.value.doc))
    decreases |run|
  {
    hide Possible, Final;
    if run == [] {
      NoSteps();
    } else {
      var before, a := run[..|run| - 1], run[|run| - 1];
      assert run == before + [a];
      LastStep(INITIAL, before, a);
      SentIsNoted(before);
    }
  }

  lemma NoSteps()
    ensures Final(INITIAL, []) == INITIAL
  {
  }

  /**
   * In every reachable state: while a panel reads a document, a job refers to that document exactly
   * when, since the panel began to read, one has been submitted for it; while a window reads a
   * document's title, exactly when the document is busy.
   */
  lemma ReadBesideJob(run: seq<Action>)
    requires Possible(INITIAL, run)
    ensures var s := Final(INITIAL, run);
      (Reader(s).Some? ==> (Refers(s, Reader(s).value.doc) <==> SentSinceTouch(run, Reader(s).value.doc))) &&
      (s.ui.Peeking? ==> (Refers(s, s.ui.doc) <==> s.ui.doc in s.busy))
  {
    hide Possible, Final, InLine, Owned, Refers, SentSinceTouch;
    InitiallyHolds();
    RunKeeps(INITIAL, run);
    SentIsNoted(run);
    var s := Final(INITIAL, run);
    if Reader(s).Some? { RefersIsBusy(s, Reader(s).value.doc); }
    if s.ui.Peeking? { RefersIsBusy(s, s.ui.doc); }
  }

  /** The worker works on a document while the interface thread reads it. */
  predicate Races(s: State) {
    s.worker.Holding? &&
    ((s.ui.Touching? && s.ui.reader.doc == s.worker.job.doc) || (s.ui.Peeking? && s.ui.doc == s.worker.job.doc))
  }

  /** A panel that submits a job reads on beside it. */
  lemma PanelRaces()
    ensures var run := [OpenDoc(0), Touch(0), MarkBusy(0), Push, Take];
      Possible(INITIAL, run) && Races(Final(INITIAL, run))
  {
    var run := [OpenDoc(0), Touch(0), MarkBusy(0), Push, Take];
    var s1 := Do(INITIAL, OpenDoc(0));
    var s2 := Do(s1, Touch(0));
    var s3 := Do(s2, MarkBusy(0));
    var s4 := Do(s3, Push);
    FiveSteps(INITIAL, s1, s2, s3, s4, run);
  }

  /** So does a window that draws the title of a busy document. */
  lemma TitleRaces()
    ensures var run := [OpenDoc(0), MarkBusy(0), Push, Take, Peek(0)];
      Possible(INITIAL, run) && Races(Final(INITIAL, run))
  {
    var run := [OpenDoc(0), MarkBusy(0), Push, Take, Peek(0)];
    var s1 := Do(INITIAL, OpenDoc(0));
    var s2 := Do(s1, MarkBusy(0));
    var s3 := Do(s2, Push);
    var s4 := Do(s3, Take);
    FiveSteps(INITIAL, s1, s2, s3, s4, run);
  }

  lemma FiveSteps(s0: State, s1: State, s2: State, s3: State, s4: State, run: seq<Action>)
    requires |run| == 5 && Enabled(s0, run[0]) && s1 == Do(s0, run[0]) && Enabled(s1, run[1]) && s2 == Do(s1, run[1])
    requires Enabled(s2, run[2]) && s3 == Do(s2, run[2]) && Enabled(s3, run[3]) && s4 == Do(s3, run[3]) && Enabled(s4, run[4])
    ensures Possible(s0, run) && Final(s0, run) == Do(s4, run[4])
  {
    hide Enabled, Do;
    var last := Do(s4, run[4]);
    assert run[1..][1..] == run[2..] && run[2..][1..] == run[3..] && run[3..][1..] == run[4..] && run[4..][1..] == [];
    assert Possible(last, []) && Final(last, []) == last;
    assert Possible(s4, run[4..]) && Final(s4, run[4..]) == last;
    assert Possible(s3, run[3..]) && Final(s3, run[3..]) == last;
    assert Possible(s2, run[2..]) && Final(s2, run[2..]) == last;
    assert Possible(s1, run[1..]) && Final(s1, run[1..]) == last;
  }

  /** Jobs run and are applied in the order they were submitted, none skipped, none twice. */
  lemma AppliedInOrder(run: seq<Action>)
    requires Possible(INITIAL, run)
    ensures var s := Final(INITIAL, run); s.applied <= s.ran <= s.submitted
  {
    hide Possible, Final, Owned;
    InitiallyHolds();
    RunKeeps(INITIAL, run);
    var s := Final(INITIAL, run);
    var tail := if s.worker.Worked? then [s.worker.job] else [];
    assert s.submitted == s.applied + (BeingApplied(s) + s.done + InHand(s) + s.queue);
    if s.worker.Worked? {
      assert s.submitted == s.ran + s.queue;
    } else {
      assert s.submitted == s.ran + (InHand(s) + s.queue);
    }
  }

  /** Once shutdown is over, every submitted job has run and has been applied, and nothing is busy. */
  lemma ShutdownIsComplete(run: seq<Action>)
    requires Possible(INITIAL, run) && Final(INITIAL, run).ui.Closed?
    ensures var s := Final(INITIAL, run); s.applied == s.submitted && s.ran == s.submitted && s.busy == {}
  {
    hide Possible, Final;
    InitiallyHolds();
    RunKeeps(INITIAL, run);
    var s := Final(INITIAL, run);
    assert Outstanding(s) == [] && Referring(s) == [];
    assert s.applied + [] == s.applied;
    NoRefs();
  }

  // ------------------------------------------------------------ shutdown ends

  /** Work left for the two threads once quitting was asked for. */
  function Left(s: State): nat {
    6 * |s.queue| + 3 * |s.done| +
    (match s.worker case Waiting => 1 case Holding(_) => 6 case Worked(_) => 5 case Exited => 0) +
    (match s.ui case Joining => 3 case Draining => 1 case Applying(_, _) => 3 case Closed => 0 case _ => 4)
  }

  /** Shutting down, some step can always be taken until everything is closed, and each brings that nearer. */
  lemma ShutdownEnds(s: State)
    requires Inv(s) && s.quit
    ensures !s.ui.Closed? ==> exists a :: Enabled(s, a)
    ensures forall a :: Enabled(s, a) ==> Left(Do(s, a)) < Left(s) && Do(s, a).quit
  {
    hide InLine, Owned;
    if !s.ui.Closed? {
      if s.ui.Joining? {
        assert Enabled(s, if s.worker.Exited? then Join else if s.worker.Holding? then Work
          else if s.worker.Worked? then Finish else if s.queue != [] then Take else Exit);
      } else {
        assert Enabled(s, if s.ui.Applying? then Apply else if s.done != [] then Pop else Close);
      }
    }
  }

  // ------------------------------------------------------------ the code

  /** The globals of the studio; a method is one step of one thread. */
  class Studio {
    var docs: set<DocId>
    var busy: set<DocId>
    var jobs: seq<Job>
    var hand: Worker
    var doneJobs: seq<Job>
    var quit: bool
    ghost var ui: Ui
    ghost var submitted: seq<Job>
    ghost var ran: seq<Job>
    ghost var applied: seq<Job>

    ghost function Now(): State
      reads this
    {
      State(docs, busy, jobs, hand, doneJobs, ui, quit, submitted, ran, applied)
    }

    constructor ()
      ensures Now() == INITIAL && Inv(Now())
    {
      docs, busy, jobs, hand, doneJobs, quit := {}, {}, [], Waiting, [], false;
      ui, submitted, ran, applied := Idle, [], [], [];
      new;
      InitiallyHolds();
    }

    /** `submit_job`: its guard is the caller's, its two steps are these. */
    method MarkBusyStep(d: DocId)
      requires Inv(Now()) && Enabled(Now(), MarkBusy(d))
      modifies this
      ensures Now() == Do(old(Now()), MarkBusy(d)) && Inv(Now())
    {
      hide Inv;
      StepKeeps(Now(), MarkBusy(d));
      busy, ui := busy + {d}, Submitting(Job(|submitted|, d), ReaderAfter(Now(), d));
    }

    method PushStep(job: Job)
      requires Inv(Now()) && ui.Submitting? && ui.job == job
      modifies this
      ensures Now() == Do(old(Now()), Push) && Inv(Now())
    {
      hide Inv;
      StepKeeps(Now(), Push);
      jobs := jobs + [job];
      submitted, ui := submitted + [job], BackTo(ui.panel);
    }

    /** One turn of `worker_main` under the first lock: a job in hand, or the end of the thread. */
    method TakeStep() returns (running: bool)
      requires Inv(Now()) && hand.Waiting? && (quit || jobs != [])
      modifies this
      ensures Inv(Now()) && (running <==> old(jobs) != [])
      ensures running ==> Enabled(old(Now()), Take) && Now() == Do(old(Now()), Take)
      ensures !running ==> Enabled(old(Now()), Exit) && Now() == Do(old(Now()), Exit)
    {
      hide Inv;
      running := jobs != [];
      StepKeeps(Now(), if running then Take else Exit);
      if !running {
        hand := Exited;
        return;
      }
      hand, jobs := Holding(jobs[0]), jobs[1..];
    }

    method WorkStep()
      requires Inv(Now()) && hand.Holding?
      modifies this
      ensures Now() == Do(old(Now()), Work) && Inv(Now())
    {
      hide Inv;
      StepKeeps(Now(), Work);
      ran := ran + [hand.job];
      hand := Worked(hand.job);
    }

    method FinishStep()
      requires Inv(Now()) && hand.Worked?
      modifies this
      ensures Now() == Do(old(Now()), Finish) && Inv(Now())
    {
      hide Inv;
      StepKeeps(Now(), Finish);
      doneJobs := doneJobs + [hand.job];
      hand := Waiting;
    }

    /** One turn of `drain_done_jobs` under the lock: the oldest finished job, if there is one. */
    method PopStep() returns (job: Option<Job>)
      requires Inv(Now()) && (ui.Idle? || ui.Draining?)
      modifies this
      ensures Inv(Now())
      ensures old(doneJobs) == [] ==> job == None && Now() == old(Now())
      ensures old(doneJobs) != [] ==> Now() == Do(old(Now()), Pop) && job == Some(ui.job)
    {
      hide Inv;
      if doneJobs == [] {
        return None;
      }
      StepKeeps(Now(), Pop);
      job := Some(doneJobs[0]);
      ui := Applying(doneJobs[0], ui.Draining?);
      doneJobs := doneJobs[1..];
    }

    method ApplyStep(job: Job)
      requires Inv(Now()) && ui.Applying? && ui.job == job
      modifies this
      ensures Now() == Do(old(Now()), Apply) && Inv(Now())
    {
      hide Inv;
      StepKeeps(Now(), Apply);
      busy := busy - {job.doc};
      applied, ui := applied + [job], if ui.closing then Draining else Idle;
    }

    /** The reap loop's test and erase, for one document. */
    method ReapStep(d: DocId) returns (erased: bool)
      requires Inv(Now()) && ui.Idle? && d in docs
      modifies this
      ensures Inv(Now()) && (erased <==> d !in old(busy))
      ensures Now() == if erased then Do(old(Now()), Reap(d)) else old(Now())
    {
      hide Inv;
      erased := d !in busy;
      if erased {
        StepKeeps(Now(), Reap(d));
        docs := docs - {d};
      }
    }

    /** `drain_done_jobs` when the worker has exited: everything finished is applied, in order. */
    method DrainAll()
      requires Inv(Now()) && ui.Draining?
      modifies this
      ensures Inv(Now()) && ui.Draining? && doneJobs == [] && applied == submitted && ran == submitted && busy == {}
      ensures docs == old(docs) && submitted == old(submitted)
    {
      hide InLine, Owned;
      while doneJobs != []
        invariant Inv(Now()) && ui.Draining? && docs == old(docs) && submitted == old(submitted)
        decreases |doneJobs|
      {
        var job := PopStep();
        ApplyStep(job.value);
      }
      NothingOutstanding(Now());
    }
  }

  lemma NothingOutstanding(s: State)
    requires Inv(s) && s.ui.Draining? && s.done == []
    ensures s.applied == s.submitted && s.ran == s.submitted && s.busy == {}
  {
    assert Outstanding(s) == [] && Referring(s) == [];
    assert s.applied + [] == s.applied;
    NoRefs();
  }
}
