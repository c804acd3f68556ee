/** The client's upload pool (internal/casput/client.go, uploadAll and
    runTransfer): one sender hands transfers to workers over an unbuffered
    channel; the worker that stores a blob's last part completes the blob; the
    first error cancels everybody, and blobs left incomplete are aborted. */
module UploadPool {
  import opened Wrappers
  import PartPlan

  /** A whole-object PUT, or part `part` of multipart blob `blob`. */
  datatype Job = Single(id: nat) | Part(blob: nat, part: nat)

  /** What uploadAll works on: the transfers in order, and each blob's number of parts. */
  datatype Config = Config(jobs: seq<Job>, parts: seq<nat>)

  /** Every part of every blob is a transfer, no transfer occurs twice, and there
      are no others. */
  ghost predicate WellFormed(c: Config) {
    && (forall i, j | 0 <= i < j < |c.jobs| :: c.jobs[i] != c.jobs[j])
    && (forall k | 0 <= k < |c.jobs| && c.jobs[k].Part? ::
          c.jobs[k].blob < |c.parts| && c.jobs[k].part < c.parts[c.jobs[k].blob])
    && (forall b, i | 0 <= b < |c.parts| && 0 <= i < c.parts[b] :: Part(b, i) in c.jobs)
    && (forall b | 0 <= b < |c.parts| :: c.parts[b] > 0)
  }

  datatype Worker =
    | Idle                                          // waiting on the channel
    | Uploading(job: Job)                           // PUT in flight
    | Completing(blob: nat, etags: seq<string>)     // complete call in flight
    | Exited

  datatype Sender = Sending | Closed | Returned(failed: bool)

  datatype Call = Call(blob: nat, etags: seq<string>)

  datatype State = State(
    sender: Sender,
    next: nat,                    // the next transfer to hand out
    workers: seq<Worker>,
    cancelled: bool,
    error: bool,                  // the one-slot error channel holds something
    etags: seq<seq<string>>,      // per blob and part; "" until stored
    completed: seq<bool>,         // per blob
    stored: set<Job>,             // ghost: whole-object PUTs that succeeded
    returned: map<Job, string>,   // ghost: the etag the store returned for a part
    calls: seq<Call>,             // ghost: complete calls made, in order
    aborts: seq<nat>)             // ghost: abort calls made, in order

  datatype Event =
    | Send(w: nat)
    | Close
    | PartStored(w: nat, etag: string)
    | SingleStored(w: nat)
    | TransferFails(w: nat)
    | CompleteSucceeds(w: nat)
    | CompleteFails(w: nat)
    | WorkerQuits(w: nat)
    | CallerCancels
    | Return

  // ---------------------------------------------------------------------
  // Steps
  // ---------------------------------------------------------------------

  predicate Enabled(c: Config, s: State, e: Event) {
    match e
    case Send(w) => s.sender == Sending && s.next < |c.jobs| && w < |s.workers| && s.workers[w].Idle?
    case Close => s.sender == Sending && (s.cancelled || s.next == |c.jobs|)
    case PartStored(w, etag) =>
      && w < |s.workers| && s.workers[w].Uploading? && s.workers[w].job.Part? && etag != ""
      && s.workers[w].job.blob < |s.etags| && s.workers[w].job.part < |s.etags[s.workers[w].job.blob]|
    case SingleStored(w) => w < |s.workers| && s.workers[w].Uploading? && s.workers[w].job.Single?
    case TransferFails(w) => w < |s.workers| && s.workers[w].Uploading?
    case CompleteSucceeds(w) =>
      w < |s.workers| && s.workers[w].Completing? && s.workers[w].blob < |s.completed|
    case CompleteFails(w) => w < |s.workers| && s.workers[w].Completing?
    case WorkerQuits(w) => s.sender != Sending && w < |s.workers| && s.workers[w].Idle?
    case CallerCancels => !s.cancelled
    case Return => s.sender == Closed && forall w | 0 <= w < |s.workers| :: s.workers[w].Exited?
  }

  /** len of the non-empty etags, the field `got`. */
  function Got(etags: seq<string>): nat {
    if etags == [] then 0 else Got(etags[..|etags| - 1]) + if etags[|etags| - 1] == "" then 0 else 1
  }

  /** The deferred loop: abort the blobs not recorded as complete, in order. */
  function AbortsOf(completed: seq<bool>): (aborts: seq<nat>)
    ensures forall b: nat :: b in aborts <==> b < |completed| && !completed[b]
    ensures forall i, j | 0 <= i < j < |aborts| :: aborts[i] < aborts[j]
  {
    if completed == [] then []
    else
      var last := |completed| - 1;
      var before := AbortsOf(completed[..last]);
      assert forall i | 0 <= i < |before| :: before[i] in before;
      if completed[last] then before else before + [last]
  }

  /** The worker reports its error if the slot is free, cancels, and is gone. */
  function Fails(s: State, w: nat): State
    requires w < |s.workers|
  {
    s.(workers := s.workers[w := Exited], cancelled := true, error := true)
  }

  function Next(c: Config, s: State, e: Event): State
    requires Enabled(c, s, e)
  {
    match e
    case Send(w) => s.(next := s.next + 1, workers := s.workers[w := Uploading(c.jobs[s.next])])
    case Close => s.(sender := Closed)
    case PartStored(w, etag) =>
      var job := s.workers[w].job;
      var etags := s.etags[job.blob][job.part := etag];
      var t := s.(etags := s.etags[job.blob := etags], returned := s.returned[job := etag]);
      if Got(etags) == |etags| then
        t.(workers := s.workers[w := Completing(job.blob, etags)], calls := s.calls + [Call(job.blob, etags)])
      else t.(workers := s.workers[w := Idle])
    case SingleStored(w) => s.(workers := s.workers[w := Idle], stored := s.stored + {s.workers[w].job})
    case TransferFails(w) => Fails(s, w)
    case CompleteSucceeds(w) =>
      s.(workers := s.workers[w := Idle], completed := s.completed[s.workers[w].blob := true])
    case CompleteFails(w) => Fails(s, w)
    case WorkerQuits(w) => s.(workers := s.workers[w := Exited])
    case CallerCancels => s.(cancelled := true)
    case Return =>
      var failed := s.error || s.cancelled;
      s.(sender := Returned(failed), aborts := if failed then AbortsOf(s.completed) else [])
  }

  ghost predicate Initial(c: Config, s: State) {
    && s.sender == Sending && s.next == 0 && !s.cancelled && !s.error
    && |s.workers| >= 1 && (forall w | 0 <= w < |s.workers| :: s.workers[w] == Idle)
    && |s.etags| == |s.completed| == |c.parts|
    && (forall b | 0 <= b < |c.parts| :: |s.etags[b]| == c.parts[b] && !s.completed[b])
    && (forall b, i | 0 <= b < |c.parts| && 0 <= i < c.parts[b] :: s.etags[b][i] == "")
    && s.stored == {} && s.returned == map[] && s.calls == [] && s.aborts == []
  }

  // ---------------------------------------------------------------------
  // The invariant
  // ---------------------------------------------------------------------

  predicate Full(etags: seq<string>) {
    forall i | 0 <= i < |etags| :: etags[i] != ""
  }

  ghost predicate Shape(c: Config, s: State) {
    && s.next <= |c.jobs| && |s.workers| >= 1
    && |s.etags| == |s.completed| == |c.parts|
    && (forall b | 0 <= b < |c.parts| :: |s.etags[b]| == c.parts[b])
  }

  /** The transfer has run to its end. */
  predicate Done(s: State, job: Job) {
    match job
    case Single(_) => job in s.stored
    case Part(b, i) => b < |s.etags| && i < |s.etags[b]| && s.etags[b][i] != ""
  }

  ghost predicate Busy(s: State, job: Job) {
    exists w :: 0 <= w < |s.workers| && s.workers[w] == Uploading(job)
  }

  /** Transfers not handed out are untouched; each handed out is held by one
      worker, or done, or lost to an error. */
  ghost predicate JobsAccounted(c: Config, s: State)
    requires Shape(c, s)
  {
    && (forall w | 0 <= w < |s.workers| && s.workers[w].Uploading? ::
          !Done(s, s.workers[w].job) && s.workers[w].job in c.jobs[..s.next])
    && (forall v, w | 0 <= v < w < |s.workers| && s.workers[v].Uploading? && s.workers[w].Uploading? ::
          s.workers[v].job != s.workers[w].job)
    && (forall k | s.next <= k < |c.jobs| :: !Done(s, c.jobs[k]))
    && (forall k | 0 <= k < s.next :: Done(s, c.jobs[k]) || Busy(s, c.jobs[k]) || s.error)
  }

  ghost predicate Called(s: State, b: nat) {
    exists i :: 0 <= i < |s.calls| && s.calls[i].blob == b
  }

  ghost predicate CompletingBy(s: State, b: nat) {
    exists w :: 0 <= w < |s.workers| && s.workers[w].Completing? && s.workers[w].blob == b
  }

  /** Each blob is completed by one call at most, made when it is full and with
      exactly its etags; an etag is the one the store returned for that part. */
  ghost predicate CallsRight(c: Config, s: State)
    requires Shape(c, s)
  {
    && (forall i, j | 0 <= i < j < |s.calls| :: s.calls[i].blob != s.calls[j].blob)
    && (forall i | 0 <= i < |s.calls| ::
          s.calls[i].blob < |s.etags| && s.calls[i].etags == s.etags[s.calls[i].blob] && Full(s.calls[i].etags))
    && (forall b, i | 0 <= b < |s.etags| && 0 <= i < |s.etags[b]| && s.etags[b][i] != "" ::
          Part(b, i) in s.returned && s.returned[Part(b, i)] == s.etags[b][i])
  }

  /** A full blob has been called for; a blob called for is being completed, is
      complete, or met an error; nothing else is. */
  ghost predicate BlobsAccounted(c: Config, s: State)
    requires Shape(c, s)
  {
    && (forall b | 0 <= b < |s.etags| && Full(s.etags[b]) :: Called(s, b))
    && (forall b | 0 <= b < |s.etags| && Called(s, b) :: s.completed[b] || CompletingBy(s, b) || s.error)
    && (forall b | 0 <= b < |s.etags| && s.completed[b] :: Called(s, b) && !CompletingBy(s, b))
    && (forall w | 0 <= w < |s.workers| && s.workers[w].Completing? ::
          s.workers[w].blob < |s.etags| && Called(s, s.workers[w].blob))
    && (forall v, w | 0 <= v < w < |s.workers| && s.workers[v].Completing? && s.workers[w].Completing? ::
          s.workers[v].blob != s.workers[w].blob)
  }

  ghost predicate ControlRight(c: Config, s: State)
    requires Shape(c, s)
  {
    && (s.error ==> s.cancelled)
    && (s.sender == Sending && !s.cancelled ==> forall w | 0 <= w < |s.workers| :: !s.workers[w].Exited?)
    && (s.sender != Sending && !s.cancelled ==> s.next == |c.jobs|)
    && (s.sender.Returned? ==> forall w | 0 <= w < |s.workers| :: s.workers[w].Exited?)
    && (s.sender.Returned? ==> s.aborts == if s.sender.failed then AbortsOf(s.completed) else [])
    && (!s.sender.Returned? ==> s.aborts == [])
    && (s.sender.Returned? && !s.sender.failed ==>
        !s.error && s.next == |c.jobs|)
  }

  ghost predicate Invariant(c: Config, s: State) {
    Shape(c, s) && JobsAccounted(c, s) && CallsRight(c, s) && BlobsAccounted(c, s) && ControlRight(c, s)
  }

  // ---------------------------------------------------------------------
  // Every step keeps it
  // ---------------------------------------------------------------------

  lemma {:induction false} GotIsFull(etags: seq<string>)
    ensures Got(etags) <= |etags|
    ensures Got(etags) == |etags| <==> Full(etags)
  {
    if etags != [] {
      GotIsFull(etags[..|etags| - 1]);
    }
  }

  lemma InitialInvariant(c: Config, s: State)
    requires WellFormed(c) && Initial(c, s)
    ensures Invariant(c, s)
  {
    forall b | 0 <= b < |s.etags| ensures !Full(s.etags[b]) {
      assert s.etags[b][0] == "";
    }
  }

  /** One worker moved: what the others hold, they still hold. */
  lemma OthersUntouched(s: State, t: State, w: nat)
    requires w < |s.workers| && |t.workers| == |s.workers| && t.workers == s.workers[w := t.workers[w]]
    ensures forall job :: Busy(s, job) && s.workers[w] != Uploading(job) ==> Busy(t, job)
    ensures forall job :: t.workers[w] == Uploading(job) ==> Busy(t, job)
    ensures forall b: nat :: CompletingBy(s, b) && !(s.workers[w].Completing? && s.workers[w].blob == b) ==>
      CompletingBy(t, b)
    ensures forall b: nat :: CompletingBy(t, b) && !(t.workers[w].Completing? && t.workers[w].blob == b) ==>
      CompletingBy(s, b)
    ensures forall b: nat :: t.workers[w].Completing? && t.workers[w].blob == b ==> CompletingBy(t, b)
  {
    forall job | Busy(s, job) && s.workers[w] != Uploading(job) ensures Busy(t, job) {
      var v :| 0 <= v < |s.workers| && s.workers[v] == Uploading(job);
      assert t.workers[v] == Uploading(job);
    }
    forall b: nat | CompletingBy(s, b) && !(s.workers[w].Completing? && s.workers[w].blob == b)
      ensures CompletingBy(t, b)
    {
      var v :| 0 <= v < |s.workers| && s.workers[v].Completing? && s.workers[v].blob == b;
      assert t.workers[v] == s.workers[v];
    }
    forall b: nat | CompletingBy(t, b) && !(t.workers[w].Completing? && t.workers[w].blob == b)
      ensures CompletingBy(s, b)
    {
      var v :| 0 <= v < |t.workers| && t.workers[v].Completing? && t.workers[v].blob == b;
      assert t.workers[v] == s.workers[v];
    }
  }

  lemma SendKeeps(c: Config, s: State, w: nat)
    requires WellFormed(c) && Invariant(c, s) && Enabled(c, s, Send(w))
    ensures Invariant(c, Next(c, s, Send(w)))
  {
    var t := Next(c, s, Send(w));
    OthersUntouched(s, t, w);
    assert c.jobs[..s.next + 1] == c.jobs[..s.next] + [c.jobs[s.next]];
    forall job ensures Done(t, job) <==> Done(s, job) {}
    forall b: nat ensures Called(t, b) <==> Called(s, b) {}
    assert BlobsAccounted(c, t);
  }

  lemma SingleStoredKeeps(c: Config, s: State, w: nat)
    requires WellFormed(c) && Invariant(c, s) && Enabled(c, s, SingleStored(w))
    ensures Invariant(c, Next(c, s, SingleStored(w)))
  {
    var t := Next(c, s, SingleStored(w));
    OthersUntouched(s, t, w);
    forall job ensures Done(t, job) <==> Done(s, job) || job == s.workers[w].job {}
    forall b: nat ensures Called(t, b) <==> Called(s, b) {}
    assert BlobsAccounted(c, t);
  }

  lemma FailureKeeps(c: Config, s: State, e: Event)
    requires WellFormed(c) && Invariant(c, s) && Enabled(c, s, e)
    requires e.TransferFails? || e.CompleteFails?
    ensures Invariant(c, Next(c, s, e))
  {
    var t := Next(c, s, e);
    OthersUntouched(s, t, e.w);
    forall b: nat ensures Called(t, b) <==> Called(s, b) {}
    assert BlobsAccounted(c, t);
  }

  lemma CompleteSucceedsKeepsJobs(c: Config, s: State, w: nat)
    requires Shape(c, s) && JobsAccounted(c, s) && Enabled(c, s, CompleteSucceeds(w))
    ensures Shape(c, Next(c, s, CompleteSucceeds(w))) && JobsAccounted(c, Next(c, s, CompleteSucceeds(w)))
  {
    hide Got, AbortsOf;
    OthersUntouched(s, Next(c, s, CompleteSucceeds(w)), w);
  }

  lemma CompleteSucceedsKeepsBlobs(c: Config, s: State, w: nat)
    requires Shape(c, s) && CallsRight(c, s) && BlobsAccounted(c, s) && Enabled(c, s, CompleteSucceeds(w))
    requires Shape(c, Next(c, s, CompleteSucceeds(w)))
    ensures CallsRight(c, Next(c, s, CompleteSucceeds(w))) && BlobsAccounted(c, Next(c, s, CompleteSucceeds(w)))
  {
    hide Got, AbortsOf;
    var t := Next(c, s, CompleteSucceeds(w));
    OthersUntouched(s, t, w);
    forall b: nat ensures Called(t, b) <==> Called(s, b) {}
  }

  lemma CompleteSucceedsKeeps(c: Config, s: State, w: nat)
    requires WellFormed(c) && Invariant(c, s) && Enabled(c, s, CompleteSucceeds(w))
    ensures Invariant(c, Next(c, s, CompleteSucceeds(w)))
  {
    hide Got, AbortsOf, WellFormed, JobsAccounted, CallsRight, BlobsAccounted;
    CompleteSucceedsKeepsJobs(c, s, w);
    CompleteSucceedsKeepsBlobs(c, s, w);
  }

  lemma WorkerQuitsKeeps(c: Config, s: State, w: nat)
    requires WellFormed(c) && Invariant(c, s) && Enabled(c, s, WorkerQuits(w))
    ensures Invariant(c, Next(c, s, WorkerQuits(w)))
  {
    var t := Next(c, s, WorkerQuits(w));
    OthersUntouched(s, t, w);
    forall b: nat ensures Called(t, b) <==> Called(s, b) {}
    assert BlobsAccounted(c, t);
  }

  /** The work of a state does not depend on its control fields. */
  lemma SameWork(c: Config, s: State, t: State)
    requires Shape(c, s) && JobsAccounted(c, s) && CallsRight(c, s) && BlobsAccounted(c, s)
    requires t == s.(sender := t.sender, cancelled := t.cancelled, aborts := t.aborts)
    ensures Shape(c, t) && JobsAccounted(c, t) && CallsRight(c, t) && BlobsAccounted(c, t)
  {
    forall b: nat ensures Called(t, b) <==> Called(s, b) {}
    forall b: nat ensures CompletingBy(t, b) <==> CompletingBy(s, b) {}
    forall job ensures Done(t, job) <==> Done(s, job) {}
    forall job ensures Busy(s, job) ==> Busy(t, job) {}
  }

  /** Steps that touch no worker. */
  lemma ControlStepKeeps(c: Config, s: State, e: Event)
    requires WellFormed(c) && Invariant(c, s) && Enabled(c, s, e)
    requires e.Close? || e.CallerCancels? || e.Return?
    ensures Invariant(c, Next(c, s, e))
  {
    hide Got, AbortsOf, WellFormed, JobsAccounted, CallsRight, BlobsAccounted;
    SameWork(c, s, Next(c, s, e));
  }

  lemma PartStoredKeepsJobs(c: Config, s: State, w: nat, etag: string)
    requires WellFormed(c) && Shape(c, s) && JobsAccounted(c, s) && Enabled(c, s, PartStored(w, etag))
    ensures Shape(c, Next(c, s, PartStored(w, etag))) && JobsAccounted(c, Next(c, s, PartStored(w, etag)))
  {
    var t := Next(c, s, PartStored(w, etag));
    var job := s.workers[w].job;
    OthersUntouched(s, t, w);
    forall other ensures Done(t, other) <==> Done(s, other) || other == job {}
    forall v | 0 <= v < |t.workers| && t.workers[v].Uploading?
      ensures t.workers[v] == s.workers[v] && t.workers[v].job != job
    {
      assert v != w;
      assert if v < w then s.workers[v].job != s.workers[w].job else s.workers[w].job != s.workers[v].job;
    }
    forall k | s.next <= k < |c.jobs| ensures c.jobs[k] != job {
      var j :| 0 <= j < s.next && c.jobs[j] == job;
    }
  }

  /** A stored part leaves its blob short of a call until now. */
  lemma PartStoredCalls(c: Config, s: State, w: nat, etag: string)
    requires WellFormed(c) && Invariant(c, s) && Enabled(c, s, PartStored(w, etag))
    ensures var t := Next(c, s, PartStored(w, etag));
      var b := s.workers[w].job.blob;
      && !Called(s, b) && !Full(s.etags[b])
      && (forall other: nat :: Called(t, other) <==> Called(s, other) || (other == b && Full(t.etags[b])))
      && t.workers[w] == if Full(t.etags[b]) then Completing(b, t.etags[b]) else Idle
  {
    var t := Next(c, s, PartStored(w, etag));
    var b := s.workers[w].job.blob;
    GotIsFull(t.etags[b]);
    assert !Done(s, s.workers[w].job) && s.etags[b][s.workers[w].job.part] == "";
    forall other: nat ensures Called(t, other) <==> Called(s, other) || (other == b && Full(t.etags[b])) {
      if Called(s, other) {
        var k :| 0 <= k < |s.calls| && s.calls[k].blob == other;
        assert t.calls[k].blob == other;
      }
      if Full(t.etags[b]) {
        assert t.calls[|s.calls|].blob == b;
      }
    }
  }

  lemma PartStoredKeepsCalls(c: Config, s: State, w: nat, etag: string)
    requires Shape(c, s) && CallsRight(c, s) && Enabled(c, s, PartStored(w, etag))
    requires Shape(c, Next(c, s, PartStored(w, etag))) && !Called(s, s.workers[w].job.blob)
    ensures CallsRight(c, Next(c, s, PartStored(w, etag)))
  {
    var t := Next(c, s, PartStored(w, etag));
    var b := s.workers[w].job.blob;
    GotIsFull(t.etags[b]);
    hide Got, AbortsOf;
    forall i | 0 <= i < |s.calls|
      ensures s.calls[i].blob != b && t.calls[i] == s.calls[i]
    {}
  }

  lemma PartStoredKeepsBlobs(c: Config, s: State, w: nat, etag: string)
    requires WellFormed(c) && Invariant(c, s) && Enabled(c, s, PartStored(w, etag))
    requires Shape(c, Next(c, s, PartStored(w, etag)))
    ensures BlobsAccounted(c, Next(c, s, PartStored(w, etag)))
  {
    PartStoredCalls(c, s, w, etag);
    OthersUntouched(s, Next(c, s, PartStored(w, etag)), w);
  }

  lemma PartStoredKeeps(c: Config, s: State, w: nat, etag: string)
    requires WellFormed(c) && Invariant(c, s) && Enabled(c, s, PartStored(w, etag))
    ensures Invariant(c, Next(c, s, PartStored(w, etag)))
  {
    hide Got, AbortsOf, JobsAccounted, CallsRight, BlobsAccounted, WellFormed, Called, Full;
    PartStoredKeepsJobs(c, s, w, etag);
    PartStoredCalls(c, s, w, etag);
    PartStoredKeepsCalls(c, s, w, etag);
    PartStoredKeepsBlobs(c, s, w, etag);
  }

  lemma StepKeepsInvariant(c: Config, s: State, e: Event)
    requires WellFormed(c) && Invariant(c, s) && Enabled(c, s, e)
    ensures Invariant(c, Next(c, s, e))
  {
    hide Invariant, Next, Enabled, WellFormed;
    match e
    case Send(w) => SendKeeps(c, s, w);
    case PartStored(w, etag) => PartStoredKeeps(c, s, w, etag);
    case SingleStored(w) => SingleStoredKeeps(c, s, w);
    case TransferFails(_) => FailureKeeps(c, s, e);
    case CompleteFails(_) => FailureKeeps(c, s, e);
    case CompleteSucceeds(w) => CompleteSucceedsKeeps(c, s, w);
    case WorkerQuits(w) => WorkerQuitsKeeps(c, s, w);
    case _ => ControlStepKeeps(c, s, e);
  }

  /** Follow a schedule as far as its steps are enabled. */
  function Run(c: Config, s: State, schedule: seq<Event>): State
    decreases |schedule|
  {
    if schedule == [] || !Enabled(c, s, schedule[0]) then s else Run(c, Next(c, s, schedule[0]), schedule[1..])
  }

  ghost predicate Reachable(c: Config, s: State) {
    exists start, schedule :: Initial(c, start) && s == Run(c, start, schedule)
  }

  lemma {:induction false} RunKeepsInvariant(c: Config, s: State, schedule: seq<Event>)
    requires WellFormed(c) && Invariant(c, s)
    ensures Invariant(c, Run(c, s, schedule))
    decreases |schedule|
  {
    if schedule != [] && Enabled(c, s, schedule[0]) {
      StepKeepsInvariant(c, s, schedule[0]);
      RunKeepsInvariant(c, Next(c, s, schedule[0]), schedule[1..]);
    }
  }

  lemma ReachableIsInvariant(c: Config, s: State)
    requires WellFormed(c) && Reachable(c, s)
    ensures Invariant(c, s)
  {
    var start, schedule :| Initial(c, start) && s == Run(c, start, schedule);
    InitialInvariant(c, start);
    RunKeepsInvariant(c, start, schedule);
  }

  // ---------------------------------------------------------------------
  // What holds under every interleaving
  // ---------------------------------------------------------------------

  /** A blob is completed by one call at most, made only once all its parts are
      stored, and etag i in the call is what the store returned for part i. */
  lemma CompletesOnceWithItsOwnEtags(c: Config, s: State)
    requires WellFormed(c) && Reachable(c, s)
    ensures forall i, j | 0 <= i < j < |s.calls| :: s.calls[i].blob != s.calls[j].blob
    ensures forall n, i | 0 <= n < |s.calls| && 0 <= i < |s.calls[n].etags| ::
      && Part(s.calls[n].blob, i) in s.returned
      && s.returned[Part(s.calls[n].blob, i)] == s.calls[n].etags[i] != ""
    ensures forall n | 0 <= n < |s.calls| ::
      s.calls[n].blob < |c.parts| && |s.calls[n].etags| == c.parts[s.calls[n].blob]
  {
    ReachableIsInvariant(c, s);
  }

  /** When the call succeeds everything was stored, every blob is complete and
      nothing is aborted; when it fails, exactly the blobs not recorded complete
      are aborted, each once. */
  lemma OutcomeIsExact(c: Config, s: State)
    requires WellFormed(c) && Reachable(c, s) && s.sender.Returned?
    ensures |s.completed| == |c.parts|
    ensures !s.sender.failed ==>
      && (forall k | 0 <= k < |c.jobs| :: Done(s, c.jobs[k]))
      && (forall b | 0 <= b < |c.parts| :: s.completed[b])
      && s.aborts == []
    ensures s.sender.failed ==>
      && (forall b: nat :: b in s.aborts <==> b < |c.parts| && !s.completed[b])
      && (forall i, j | 0 <= i < j < |s.aborts| :: s.aborts[i] != s.aborts[j])
  {
    ReachableIsInvariant(c, s);
    if !s.sender.failed {
      forall k | 0 <= k < |c.jobs| ensures Done(s, c.jobs[k]) {
        assert !Busy(s, c.jobs[k]);
      }
      forall b | 0 <= b < |c.parts| ensures s.completed[b] {
        forall i | 0 <= i < |s.etags[b]| ensures s.etags[b][i] != "" {
          assert Part(b, i) in c.jobs;
          var k :| 0 <= k < |c.jobs| && c.jobs[k] == Part(b, i);
        }
        assert Full(s.etags[b]) && Called(s, b) && !CompletingBy(s, b);
      }
    }
  }

  /** Each event of the schedule is enabled when its turn comes. */
  predicate Plays(c: Config, s: State, schedule: seq<Event>)
    decreases |schedule|
  {
    schedule == [] || (Enabled(c, s, schedule[0]) && Plays(c, Next(c, s, schedule[0]), schedule[1..]))
  }

  predicate IsTrouble(e: Event) {
    e.TransferFails? || e.CompleteFails? || e.CallerCancels?
  }

  lemma {:induction false} ReturnedStays(c: Config, s: State, schedule: seq<Event>)
    requires Plays(c, s, schedule) && s.sender.Returned?
    requires forall w | 0 <= w < |s.workers| :: s.workers[w].Exited?
    ensures Run(c, s, schedule).sender == s.sender
    decreases |schedule|
  {
    if schedule != [] {
      ReturnedStays(c, Next(c, s, schedule[0]), schedule[1..]);
    }
  }

  /** Before the return only trouble cancels, and the return fails if anything was
      cancelled. */
  lemma TroubleCancels(c: Config, s: State, e: Event)
    requires Enabled(c, s, e) && !s.sender.Returned? && (s.error ==> s.cancelled)
    ensures var t := Next(c, s, e);
      && (t.error ==> t.cancelled)
      && (!e.Return? ==> !t.sender.Returned? && (t.cancelled <==> s.cancelled || IsTrouble(e)))
      && (e.Return? ==>
          t.sender == Returned(s.cancelled) && forall w | 0 <= w < |t.workers| :: t.workers[w].Exited?)
  {
    hide Got, AbortsOf;
  }

  /** Played from any state, a schedule that comes to an outcome takes a Return
      step, and fails exactly if it was cancelled before or met trouble until then. */
  lemma {:induction false} ReturnDecides(c: Config, s: State, schedule: seq<Event>) returns (r: nat)
    requires Plays(c, s, schedule) && !s.sender.Returned? && (s.error ==> s.cancelled)
    requires Run(c, s, schedule).sender.Returned?
    ensures r < |schedule| && schedule[r] == Return
    ensures Run(c, s, schedule).sender.failed <==>
      s.cancelled || exists i :: 0 <= i < r && IsTrouble(schedule[i])
    decreases |schedule|
  {
    var e, rest := schedule[0], schedule[1..];
    var t := Next(c, s, e);
    TroubleCancels(c, s, e);
    hide Next, Enabled;
    if e.Return? {
      ReturnedStays(c, t, rest);
      r := 0;
    } else {
      var later := ReturnDecides(c, t, rest);
      r := later + 1;
      assert forall i | 0 < i < r :: schedule[i] == rest[i - 1];
      assert (exists i :: 0 <= i < later && IsTrouble(rest[i])) ==> exists i :: 0 < i < r && IsTrouble(schedule[i]) by {
        if i :| 0 <= i < later && IsTrouble(rest[i]) {
          assert schedule[i + 1] == rest[i];
        }
      }
    }
  }

  /** The call fails exactly if, before it returned, a transfer or a complete call
      failed or its caller cancelled it. */
  lemma FailsIffTroubled(c: Config, start: State, schedule: seq<Event>) returns (r: nat)
    requires WellFormed(c) && Initial(c, start) && Plays(c, start, schedule)
    requires Run(c, start, schedule).sender.Returned?
    ensures r < |schedule| && schedule[r] == Return
    ensures Run(c, start, schedule).sender.failed <==>
      exists i :: 0 <= i < r &&
        (schedule[i].TransferFails? || schedule[i].CompleteFails? || schedule[i].CallerCancels?)
  {
    r := ReturnDecides(c, start, schedule);
    forall i: nat
      ensures i < |schedule| ==> (IsTrouble(schedule[i]) <==>
        schedule[i].TransferFails? || schedule[i].CompleteFails? || schedule[i].CallerCancels?)
    {}
  }

  predicate IsStepOf(e: Event, w: nat) {
    !e.Close? && !e.CallerCancels? && !e.Return? && e.w == w
  }

  lemma {:induction false} GoneForGood(c: Config, s: State, schedule: seq<Event>, w: nat)
    requires Plays(c, s, schedule) && w < |s.workers| && s.workers[w].Exited?
    ensures forall i | 0 <= i < |schedule| :: !IsStepOf(schedule[i], w)
    decreases |schedule|
  {
    if schedule != [] {
      GoneForGood(c, Next(c, s, schedule[0]), schedule[1..], w);
      assert forall i | 0 < i < |schedule| :: schedule[i] == schedule[1..][i - 1];
    }
  }

  /** A worker that met an error takes no transfer after it. */
  lemma {:induction false} FailedWorkerIsGone(c: Config, s: State, schedule: seq<Event>, w: nat, i: nat, j: nat)
    requires Plays(c, s, schedule) && i < j < |schedule|
    requires schedule[i] == TransferFails(w) || schedule[i] == CompleteFails(w)
    ensures !IsStepOf(schedule[j], w)
    decreases i
  {
    var t, rest := Next(c, s, schedule[0]), schedule[1..];
    assert schedule[j] == rest[j - 1];
    if i == 0 {
      GoneForGood(c, t, rest, w);
    } else {
      FailedWorkerIsGone(c, t, rest, w, i - 1, j - 1);
    }
  }

  /** Until the call returns some step of its own is enabled: in particular a
      sender with transfers left never waits on workers that have all gone. */
  lemma NeverStuck(c: Config, s: State)
    requires WellFormed(c) && Reachable(c, s) && !s.sender.Returned?
    ensures exists e | e != CallerCancels :: Enabled(c, s, e)
  {
    ReachableIsInvariant(c, s);
    if w :| 0 <= w < |s.workers| && s.workers[w].Uploading? {
      assert Enabled(c, s, TransferFails(w));
    } else if w :| 0 <= w < |s.workers| && s.workers[w].Completing? {
      assert Enabled(c, s, CompleteFails(w));
    } else if w :| 0 <= w < |s.workers| && s.workers[w].Idle? {
      assert if s.sender == Sending then Enabled(c, s, Send(w)) || Enabled(c, s, Close)
             else Enabled(c, s, WorkerQuits(w));
    } else {
      assert s.workers[0].Exited?;
      assert Enabled(c, s, Close) || Enabled(c, s, Return);
    }
  }

  function WorkerWeight(worker: Worker): nat {
    match worker
    case Idle => 1
    case Uploading(_) => 3
    case Completing(_, _) => 2
    case Exited => 0
  }

  function WorkersWeight(workers: seq<Worker>): nat {
    if workers == [] then 0 else WorkersWeight(workers[..|workers| - 1]) + WorkerWeight(workers[|workers| - 1])
  }

  lemma {:induction false} WeightMoves(workers: seq<Worker>, w: nat, worker: Worker)
    requires w < |workers|
    ensures WorkersWeight(workers[w := worker]) + WorkerWeight(workers[w]) ==
      WorkersWeight(workers) + WorkerWeight(worker)
  {
    var last := |workers| - 1;
    var moved := workers[w := worker];
    if w < last {
      assert moved[..last] == workers[..last][w := worker];
      WeightMoves(workers[..last], w, worker);
    } else {
      assert moved[..last] == workers[..last];
    }
  }

  /** How many more steps the call can take. */
  function Weight(c: Config, s: State): nat
    requires s.next <= |c.jobs|
  {
    3 * (|c.jobs| - s.next) + WorkersWeight(s.workers) + (if s.cancelled then 0 else 1) +
    (match s.sender case Sending => 2 case Closed => 1 case Returned(_) => 0)
  }

  /** Every step uses some of it up, so every run of the pool ends. */
  lemma EveryRunEnds(c: Config, s: State, e: Event)
    requires s.next <= |c.jobs| && Enabled(c, s, e)
    ensures Next(c, s, e).next <= |c.jobs|
    ensures Weight(c, Next(c, s, e)) < Weight(c, s)
  {
    hide WorkersWeight, Got, AbortsOf;
    if !e.Close? && !e.CallerCancels? && !e.Return? {
      WeightMoves(s.workers, e.w, Next(c, s, e).workers[e.w]);
    }
  }

  // ---------------------------------------------------------------------
  // Planning the transfers
  // ---------------------------------------------------------------------

  /** One upload descriptor as the agent sent it. */
  datatype Descriptor = Descriptor(sha256: string, upload: PartPlan.Upload)

  /** The multipart uploads among the descriptors, in order. */
  function Multiparts(uploads: seq<Descriptor>): seq<PartPlan.Upload> {
    if uploads == [] then []
    else
      Multiparts(uploads[..|uploads| - 1]) +
      (var item := uploads[|uploads| - 1].upload; if item.uploadId == "" then [] else [item])
  }

  function IdsOf(items: seq<PartPlan.Upload>): seq<string> {
    seq(|items|, i requires 0 <= i < |items| => items[i].uploadId)
  }

  ghost predicate Usable(d: Descriptor, known: set<string>) {
    PartPlan.Acceptable(d.upload) && d.sha256 in known
  }

  /** The parts of blob b, n of them. */
  function PartJobs(b: nat, n: nat): seq<Job> {
    seq(n, i requires 0 <= i < n => Part(b, i))
  }

  /** The transfers of the first k descriptors: a whole-object PUT for each one
      without an upload id, and a blob with a part for each request for each of
      the others. */
  ghost predicate PlanOf(c: Config, uploads: seq<Descriptor>, k: nat) {
    && k <= |uploads| && WellFormed(c)
    && (forall j: nat :: Single(j) in c.jobs <==> j < k && uploads[j].upload.uploadId == "")
    && (var items := Multiparts(uploads[..k]);
        |c.parts| == |items| && forall b | 0 <= b < |items| :: c.parts[b] == |items[b].requests|)
  }

  lemma EmptyPlan(uploads: seq<Descriptor>)
    ensures PlanOf(Config([], []), uploads, 0)
  {}

  lemma BlobJoins(c: Config, uploads: seq<Descriptor>, k: nat)
    requires PlanOf(c, uploads, k) && k < |uploads|
    requires uploads[k].upload.uploadId != "" && |uploads[k].upload.requests| > 0
    ensures var n := |uploads[k].upload.requests|;
      PlanOf(Config(c.jobs + PartJobs(|c.parts|, n), c.parts + [n]), uploads, k + 1)
  {
    var n := |uploads[k].upload.requests|;
    var d := Config(c.jobs + PartJobs(|c.parts|, n), c.parts + [n]);
    MultipartsStep(uploads, k);
    forall b, i | 0 <= b < |d.parts| && 0 <= i < d.parts[b]
      ensures Part(b, i) in d.jobs
    {
      if b < |c.parts| {
        assert Part(b, i) in c.jobs;
      } else {
        assert d.jobs[|c.jobs| + i] == Part(b, i);
      }
    }
    forall j: nat
      ensures Single(j) in d.jobs <==> Single(j) in c.jobs
    {
      assert Single(j) !in PartJobs(|c.parts|, n);
    }
  }

  lemma SingleJoins(c: Config, uploads: seq<Descriptor>, k: nat)
    requires PlanOf(c, uploads, k) && k < |uploads| && uploads[k].upload.uploadId == ""
    ensures PlanOf(c.(jobs := c.jobs + [Single(k)]), uploads, k + 1)
  {
    MultipartsStep(uploads, k);
    assert Single(k) !in c.jobs;
  }

  lemma MultipartsStep(uploads: seq<Descriptor>, k: nat)
    requires k < |uploads|
    ensures var item := uploads[k].upload;
      Multiparts(uploads[..k + 1]) == Multiparts(uploads[..k]) + if item.uploadId == "" then [] else [item]
  {
    assert uploads[..k + 1][..k] == uploads[..k];
  }

  lemma IdsStep(uploads: seq<Descriptor>, k: nat)
    requires k < |uploads|
    ensures var id := uploads[k].upload.uploadId;
      IdsOf(Multiparts(uploads[..k + 1])) == IdsOf(Multiparts(uploads[..k])) + if id == "" then [] else [id]
  {
    MultipartsStep(uploads, k);
    assert Multiparts(uploads[..k]) + [] == Multiparts(uploads[..k]);
  }

  /** Normalise every descriptor and list the transfers. A descriptor that is not
      usable fails the whole call, and the multipart uploads seen so far, its own
      included, are aborted; `at` is the place of that descriptor. */
  method PlanTransfers(uploads: seq<Descriptor>, known: set<string>)
    returns (r: Result<Config, string>, aborted: seq<string>, ghost at: nat)
    ensures r.Ok? <==> forall k | 0 <= k < |uploads| :: Usable(uploads[k], known)
    ensures r.Ok? ==> PlanOf(r.value, uploads, |uploads|) && aborted == []
    ensures r.Err? ==> at < |uploads| && !Usable(uploads[at], known)
    ensures r.Err? ==> forall j | 0 <= j < at :: Usable(uploads[j], known)
    ensures r.Err? ==> aborted == IdsOf(Multiparts(uploads[..at + 1]))
  {
    hide PartPlan.Acceptable, Multiparts, IdsOf, PlanOf, PartJobs;
    at := 0;
    var c := Config([], []);
    var multipart: seq<string> := [];
    EmptyPlan(uploads);
    NoMultiparts(uploads[..0]);
    for k := 0 to |uploads|
      invariant forall j | 0 <= j < k :: Usable(uploads[j], known)
      invariant PlanOf(c, uploads, k)
      invariant multipart == IdsOf(Multiparts(uploads[..k]))
    {
      IdsStep(uploads, k);
      var item := uploads[k].upload;
      var normalized := PartPlan.NormalizeUpload(item);
      if normalized.Err? || uploads[k].sha256 !in known {
        if item.uploadId != "" {
          multipart := multipart + [item.uploadId];
        }
        at := k;
        return Err("unusable upload descriptor"), multipart, at;
      }
      if normalized.value.uploadId == "" {
        SingleJoins(c, uploads, k);
        c := c.(jobs := c.jobs + [Single(k)]);
      } else {
        AcceptableHasRequests(item);
        BlobJoins(c, uploads, k);
        c := Config(c.jobs + PartJobs(|c.parts|, |normalized.value.requests|), c.parts + [|normalized.value.requests|]);
        multipart := multipart + [normalized.value.uploadId];
      }
    }
    return Ok(c), [], 0;
  }

  lemma NoMultiparts(uploads: seq<Descriptor>)
    requires uploads == []
    ensures IdsOf(Multiparts(uploads)) == []
  {}

  lemma AcceptableHasRequests(item: PartPlan.Upload)
    requires PartPlan.Acceptable(item)
    ensures |item.requests| > 0
  {}
}
