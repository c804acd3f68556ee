/** One resumable staged upload (cmd/relkit-agent/staged_upload.go): part puts
    and completes run under the upload's lock in any order; every write to disk
    may fail, and the process may stop in between. */
module StagedUpload {
  import opened Wrappers
  import opened PartPlan

  type Bytes = seq<bv8>

  /** What createUpload fixes for good. */
  datatype Geometry = Geometry(bytes: int, sha256: string, partSize: int) {
    predicate Planned() {
      1 <= bytes && 1 <= partSize
    }

    function PartCount(): int
      requires Planned()
    {
      Parts(bytes, partSize)
    }

    function LengthOf(part: int): int
      requires Planned()
    {
      PartLength(part, PartCount(), partSize, bytes)
    }
  }

  datatype Status = Open | Completing

  /** The upload's directory, and the archive it installed if it did. */
  datatype Session = Session(
    present: bool,
    status: Status,
    parts: map<int, string>,     // the record: part to digest
    files: map<int, Bytes>,      // the part files
    installed: Option<Bytes>)

  datatype Reply = Created | AlreadyStored | BadRequest | NotFound | Conflict | ServerError | NoReply

  // ---------------------------------------------------------------------
  // Storing a part
  // ---------------------------------------------------------------------

  /** What becomes of the writes of one put: removing an unrecorded file after a
      failed record write may itself fail, and the process may stop. */
  datatype PutFate = PutFine | RenameFails | RecordFails(removed: bool) | StopsAfterRename

  /** The checks before the lock: the range, the length, the presented digest. */
  predicate Admissible(g: Geometry, sha: Bytes -> string, part: int, body: Bytes, presented: Option<string>)
    requires g.Planned()
  {
    && 0 <= part < g.PartCount() && |body| == g.LengthOf(part)
    && (presented.Some? ==> presented.value == sha(body))
  }

  function Without<K, V>(m: map<K, V>, key: K): map<K, V> {
    map k | k in m && k != key :: m[k]
  }

  /** The locked half of a put. */
  function Stored(s: Session, digest: string, part: int, body: Bytes, fate: PutFate): (Session, Reply) {
    if !s.present then (s, NotFound)
    else if s.status != Open then (s, Conflict)
    else if part in s.parts then (s, if s.parts[part] == digest then AlreadyStored else Conflict)
    else match fate
      case RenameFails => (s.(files := Without(s.files, part)), ServerError)
      case RecordFails(removed) =>
        (s.(files := if removed then Without(s.files, part) else s.files[part := body]), ServerError)
      case StopsAfterRename => (s.(files := s.files[part := body]), NoReply)
      case PutFine => (s.(files := s.files[part := body], parts := s.parts[part := digest]), Created)
  }

  // ---------------------------------------------------------------------
  // Completing
  // ---------------------------------------------------------------------

  datatype WorkFate = WorkFine | WorkFails | WorkStops

  /** Whether the status is written, how assembling and installing go, and
      whether the last, unchecked writes succeed. */
  datatype CompleteFate = CompleteFate(marked: bool, work: WorkFate, reverted: bool, cleaned: bool)

  function MissingParts(g: Geometry, parts: map<int, string>): (missing: seq<int>)
    requires g.Planned()
    ensures forall i :: i in missing <==> 0 <= i < g.PartCount() && i !in parts
    ensures missing == [] <==> forall i | 0 <= i < g.PartCount() :: i in parts
  {
    MissingBelow(parts, g.PartCount())
  }

  function MissingBelow(parts: map<int, string>, n: int): (missing: seq<int>)
    ensures forall i :: i in missing <==> 0 <= i < n && i !in parts
    ensures missing == [] <==> forall i | 0 <= i < n :: i in parts
    decreases n
  {
    if n <= 0 then []
    else MissingBelow(parts, n - 1) + if n - 1 in parts then [] else [n - 1]
  }

  /** The part files end to end; a file that is not there cannot be read. */
  function Assembled(files: map<int, Bytes>, n: nat): Option<Bytes> {
    if n == 0 then Some([])
    else
      var before := Assembled(files, n - 1);
      if before.None? || n - 1 !in files then None else Some(before.value + files[n - 1])
  }

  function Completed(g: Geometry, sha: Bytes -> string, s: Session, fate: CompleteFate): (Session, Reply)
    requires g.Planned()
  {
    if !s.present then (s, NotFound)
    else if s.status != Open then (s, Conflict)
    else if MissingParts(g, s.parts) != [] then (s, Conflict)
    else if !fate.marked then (s, ServerError)
    else
      var marked := s.(status := Completing);
      var reopened := if fate.reverted then s else marked;
      if fate.work == WorkStops then (marked, NoReply)
      else if fate.work == WorkFails then (reopened, ServerError)
      else
        var whole := Assembled(s.files, if g.PartCount() < 0 then 0 else g.PartCount());
        if whole.None? then (reopened, ServerError)
        else if sha(whole.value) != g.sha256 then (reopened, BadRequest)
        else if fate.cleaned then (Session(false, Completing, map[], map[], whole), Created)
        else (marked.(installed := whole), Created)
  }

  // ---------------------------------------------------------------------
  // The object
  // ---------------------------------------------------------------------

  class Upload {
    const g: Geometry
    const sha: Bytes -> string
    var present: bool
    var status: Status
    var parts: map<int, string>
    var files: map<int, Bytes>
    var installed: Option<Bytes>

    function Now(): Session
      reads this
    {
      Session(present, status, parts, files, installed)
    }

    constructor (g: Geometry, sha: Bytes -> string)
      ensures this.g == g && this.sha == sha && Now() == Session(true, Open, map[], map[], None)
    {
      this.g, this.sha := g, sha;
      present, status, parts, files, installed := true, Open, map[], map[], None;
    }

    method PutPart(part: int, body: Bytes, presented: Option<string>, fate: PutFate) returns (reply: Reply)
      requires g.Planned()
      modifies this
      ensures Admissible(g, sha, part, body, presented) ==>
        (Now(), reply) == Stored(old(Now()), sha(body), part, body, fate)
      ensures !Admissible(g, sha, part, body, presented) ==>
        Now() == old(Now()) && reply in {BadRequest, NotFound, Conflict}
      ensures reply in {Created, AlreadyStored} <==>
        (&& 0 <= part < g.PartCount() && |body| == g.LengthOf(part)
         && (presented.Some? ==> presented.value == sha(body))
         && old(present) && old(status) == Open
         && part in parts && parts[part] == sha(body))
      ensures reply == Created ==>
        part !in old(parts) && parts == old(parts)[part := sha(body)] && part in files && files[part] == body
      ensures reply == AlreadyStored ==> Now() == old(Now())
      ensures
        0 <= part < g.PartCount() && |body| == g.LengthOf(part) &&
        (presented.Some? ==> presented.value == sha(body)) && old(present) && old(status) == Open ==>
          (if part !in old(parts) then fate.PutFine? ==> reply == Created
           else Now() == old(Now()) && reply == if old(parts)[part] == sha(body) then AlreadyStored else Conflict)
      ensures reply != Created ==> parts == old(parts)
      ensures present == old(present) && status == old(status) && installed == old(installed)
      ensures forall other | other != part ::
        (other in files <==> other in old(files)) && (other in files ==> files[other] == old(files)[other])
    {
      if part < 0 {
        return BadRequest;
      }
      if !present {
        return NotFound;
      }
      if status != Open {
        return Conflict;
      }
      if part >= g.PartCount() {
        return BadRequest;
      }
      if |body| != g.LengthOf(part) {
        return BadRequest;
      }
      var sum := sha(body);
      if presented.Some? && presented.value != sum {
        return BadRequest;
      }
      if part in parts {
        if parts[part] != sum {
          return Conflict;
        }
        return AlreadyStored;
      }
      files := Without(files, part);
      if fate == RenameFails {
        return ServerError;
      }
      files := files[part := body];
      assert files == old(files)[part := body];
      if fate == StopsAfterRename {
        return NoReply;
      }
      if fate.RecordFails? {
        if fate.removed {
          files := Without(files, part);
          assert files == Without(old(files), part);
        }
        return ServerError;
      }
      parts := parts[part := sum];
      return Created;
    }

    method Complete(fate: CompleteFate) returns (reply: Reply)
      requires g.Planned()
      modifies this
      ensures (Now(), reply) == Completed(g, sha, old(Now()), fate)
      ensures reply == NotFound <==> !old(present)
      ensures reply == Conflict <==>
        (old(present) && (old(status) != Open || exists i :: 0 <= i < g.PartCount() && i !in old(parts)))
      ensures reply == Created ==>
        && installed.Some? && sha(installed.value) == g.sha256
        && (fate.cleaned ==> !present) && (!fate.cleaned ==> present && status == Completing)
      ensures reply != Created ==>
        present == old(present) && parts == old(parts) && files == old(files) && installed == old(installed)
      ensures reply in {NotFound, Conflict} ==> status == old(status)
      ensures reply in {ServerError, BadRequest} ==>
        status == if fate.marked && !fate.reverted then Completing else Open
    {
      if !present {
        return NotFound;
      }
      if status != Open {
        return Conflict;
      }
      var missing := MissingParts(g, parts);
      if |missing| > 0 {
        return Conflict;
      }
      if !fate.marked {
        return ServerError;
      }
      status := Completing;
      if fate.work == WorkStops {
        return NoReply;
      }
      if fate.work == WorkFails {
        Reopen(fate.reverted);
        return ServerError;
      }
      PartsTile(g.partSize, g.bytes);
      var whole: Bytes := [];
      for i := 0 to g.PartCount()
        invariant Now() == old(Now()).(status := Completing)
        invariant Assembled(files, i) == Some(whole)
      {
        if i !in files {
          BrokenAssembly(files, i, g.PartCount());
          Reopen(fate.reverted);
          return ServerError;
        }
        whole := whole + files[i];
      }
      if sha(whole) != g.sha256 {
        Reopen(fate.reverted);
        return BadRequest;
      }
      installed := Some(whole);
      if fate.cleaned {
        present, parts, files := false, map[], map[];
      }
      return Created;
    }

    method Reopen(written: bool)
      modifies this`status
      ensures status == if written then Open else old(status)
    {
      if written {
        status := Open;
      }
    }
  }

  lemma {:induction false} BrokenAssembly(files: map<int, Bytes>, i: nat, n: nat)
    requires i < n && i !in files
    ensures Assembled(files, n).None?
  {
    if i < n - 1 {
      BrokenAssembly(files, i, n - 1);
    }
  }

  // ---------------------------------------------------------------------
  // Any order of locked steps
  // ---------------------------------------------------------------------

  datatype Op =
    | Put(part: int, body: Bytes, presented: Option<string>, putFate: PutFate)
    | Complete(completeFate: CompleteFate)

  function Step(g: Geometry, sha: Bytes -> string, s: Session, op: Op): Session
    requires g.Planned()
  {
    match op
    case Put(part, body, presented, fate) =>
      if Admissible(g, sha, part, body, presented) then Stored(s, sha(body), part, body, fate).0 else s
    case Complete(fate) => Completed(g, sha, s, fate).0
  }

  function Run(g: Geometry, sha: Bytes -> string, s: Session, ops: seq<Op>): Session
    requires g.Planned()
    decreases |ops|
  {
    if ops == [] then s else Run(g, sha, Step(g, sha, s, ops[0]), ops[1..])
  }

  /** Every recorded part is in its file, with its digest and planned length; an
      installed archive has the size and digest the upload was opened for. */
  ghost predicate Sound(g: Geometry, sha: Bytes -> string, s: Session)
    requires g.Planned()
  {
    && (forall part | part in s.parts ::
          && 0 <= part < g.PartCount() && part in s.files
          && sha(s.files[part]) == s.parts[part] && |s.files[part]| == g.LengthOf(part))
    && (s.installed.Some? ==> |s.installed.value| == g.bytes && sha(s.installed.value) == g.sha256)
  }

  lemma {:induction false} AssembledLength(g: Geometry, files: map<int, Bytes>, n: nat)
    requires g.Planned() && n <= g.PartCount()
    requires forall i | 0 <= i < n :: i in files && |files[i]| == g.LengthOf(i)
    ensures Assembled(files, n).Some?
    ensures |Assembled(files, n).value| == LengthOfFirst(n, g.PartCount(), g.partSize, g.bytes)
  {
    if n > 0 {
      AssembledLength(g, files, n - 1);
    }
  }

  /** A complete that answers Created has installed exactly the recorded part
      files in order: all of them, of the planned size, with the planned digest. */
  lemma CreatedInstallsTheConcatenation(g: Geometry, sha: Bytes -> string, s: Session, fate: CompleteFate)
    requires g.Planned() && Sound(g, sha, s)
    requires Completed(g, sha, s, fate).1 == Created
    ensures var t := Completed(g, sha, s, fate).0;
      && 1 <= g.PartCount() && t.installed == Assembled(s.files, g.PartCount()) && t.installed.Some?
      && |t.installed.value| == g.bytes && sha(t.installed.value) == g.sha256
    ensures forall i | 0 <= i < g.PartCount() :: i in s.parts && sha(s.files[i]) == s.parts[i]
  {
    PartsTile(g.partSize, g.bytes);
    AssembledLength(g, s.files, g.PartCount());
  }

  lemma StepKeepsSound(g: Geometry, sha: Bytes -> string, s: Session, op: Op)
    requires g.Planned() && Sound(g, sha, s)
    ensures Sound(g, sha, Step(g, sha, s, op))
    ensures Step(g, sha, s, op).present ==> forall part | part in s.parts ::
      part in Step(g, sha, s, op).parts && Step(g, sha, s, op).parts[part] == s.parts[part]
    ensures !s.present ==> Step(g, sha, s, op) == s
  {
    if op.Complete? && Completed(g, sha, s, op.completeFate).1 == Created {
      CreatedInstallsTheConcatenation(g, sha, s, op.completeFate);
    }
  }

  /** Over any order, repetition and interleaving of puts and completes, with any
      failures: the session stays sound, and as long as it exists no recorded
      digest is dropped or changed. */
  lemma {:induction false} RecordedDigestsNeverChange(g: Geometry, sha: Bytes -> string, s: Session, ops: seq<Op>)
    requires g.Planned() && Sound(g, sha, s)
    ensures Sound(g, sha, Run(g, sha, s, ops))
    ensures Run(g, sha, s, ops).present ==> forall part | part in s.parts ::
      part in Run(g, sha, s, ops).parts && Run(g, sha, s, ops).parts[part] == s.parts[part]
    ensures !s.present ==> Run(g, sha, s, ops) == s
    decreases |ops|
  {
    if ops != [] {
      StepKeepsSound(g, sha, s, ops[0]);
      RecordedDigestsNeverChange(g, sha, Step(g, sha, s, ops[0]), ops[1..]);
    }
  }

  ghost predicate Fresh(s: Session) {
    s == Session(true, Open, map[], map[], None)
  }

  /** Two histories of one upload that both install, install the same bytes. */
  lemma InstallsAreConfluent(g: Geometry, sha: Bytes -> string, s: Session, a: seq<Op>, b: seq<Op>)
    requires g.Planned() && Fresh(s)
    requires forall x, y | sha(x) == sha(y) :: x == y
    requires Run(g, sha, s, a).installed.Some? && Run(g, sha, s, b).installed.Some?
    ensures Run(g, sha, s, a).installed == Run(g, sha, s, b).installed
  {
    RecordedDigestsNeverChange(g, sha, s, a);
    RecordedDigestsNeverChange(g, sha, s, b);
  }

  // ---------------------------------------------------------------------
  // An honest client gets its content installed
  // ---------------------------------------------------------------------

  function Slice(g: Geometry, content: Bytes, part: int): Bytes
    requires g.Planned() && |content| == g.bytes && 0 <= part < g.PartCount()
    ensures |Slice(g, content, part)| == g.LengthOf(part)
  {
    SliceFits(g, part);
    content[part * g.partSize..part * g.partSize + g.LengthOf(part)]
  }

  lemma SliceFits(g: Geometry, part: int)
    requires g.Planned() && 0 <= part < g.PartCount()
    ensures 0 <= part * g.partSize <= part * g.partSize + g.LengthOf(part) <= g.bytes
    ensures part * g.partSize + g.LengthOf(part) == OffsetAfter(g.bytes, g.partSize, part + 1)
  {
    NextRange(g.bytes, g.partSize, part);
    NextRange(g.bytes, g.partSize, part + 1);
    MulMonotone(0, part, g.partSize);
  }

  /** Only slices of the content are ever put. */
  ghost predicate HonestOps(g: Geometry, content: Bytes, ops: seq<Op>)
    requires g.Planned() && |content| == g.bytes
  {
    forall k | 0 <= k < |ops| && ops[k].Put? && 0 <= ops[k].part < g.PartCount() ::
      ops[k].body == Slice(g, content, ops[k].part)
  }

  /** The part files, and the archive if one was installed, are of the content. */
  ghost predicate HonestFiles(g: Geometry, content: Bytes, s: Session)
    requires g.Planned() && |content| == g.bytes
  {
    && (forall part | part in s.files :: 0 <= part < g.PartCount() && s.files[part] == Slice(g, content, part))
    && (s.installed.Some? ==> s.installed.value == content)
    && (!s.present ==> s.installed.Some?)
  }

  lemma HonestStepKeepsFiles(g: Geometry, sha: Bytes -> string, content: Bytes, s: Session, op: Op)
    requires g.Planned() && |content| == g.bytes && HonestOps(g, content, [op])
    requires Sound(g, sha, s) && HonestFiles(g, content, s)
    ensures HonestFiles(g, content, Step(g, sha, s, op))
  {
    hide Slice, Parts, PartLength, MissingParts, Assembled;
    assert [op][0] == op;
    if op.Complete? && Completed(g, sha, s, op.completeFate).1 == Created {
      CreatedIsTheContent(g, sha, content, s, op.completeFate);
    }
  }

  lemma CreatedIsTheContent(g: Geometry, sha: Bytes -> string, content: Bytes, s: Session, fate: CompleteFate)
    requires g.Planned() && |content| == g.bytes && Sound(g, sha, s) && HonestFiles(g, content, s)
    requires Completed(g, sha, s, fate).1 == Created
    ensures Completed(g, sha, s, fate).0.installed == Some(content)
  {
    hide Slice, Parts, PartLength, Completed, Assembled;
    CreatedInstallsTheConcatenation(g, sha, s, fate);
    SlicesAssemble(g, content, s.files, g.PartCount());
    PartsTile(g.partSize, g.bytes);
    assert content[..g.bytes] == content;
  }

  lemma {:induction false} HonestRunKeepsFiles(
    g: Geometry, sha: Bytes -> string, content: Bytes, s: Session, ops: seq<Op>)
    requires g.Planned() && |content| == g.bytes && HonestOps(g, content, ops)
    requires Sound(g, sha, s) && HonestFiles(g, content, s)
    ensures HonestFiles(g, content, Run(g, sha, s, ops)) && Sound(g, sha, Run(g, sha, s, ops))
    decreases |ops|
  {
    hide HonestFiles, Sound, Step;
    if ops != [] {
      StepKeepsSound(g, sha, s, ops[0]);
      HonestStepKeepsFiles(g, sha, content, s, ops[0]);
      HonestRunKeepsFiles(g, sha, content, Step(g, sha, s, ops[0]), ops[1..]);
    }
  }

  lemma {:induction false} SlicesAssemble(g: Geometry, content: Bytes, files: map<int, Bytes>, n: nat)
    requires g.Planned() && |content| == g.bytes && n <= g.PartCount()
    requires forall i | 0 <= i < n :: i in files && files[i] == Slice(g, content, i)
    ensures 0 <= OffsetAfter(g.bytes, g.partSize, n) <= g.bytes
    ensures Assembled(files, n) == Some(content[..OffsetAfter(g.bytes, g.partSize, n)])
  {
    hide Parts, PartLength, LengthOfFirst;
    PartsTile(g.partSize, g.bytes);
    if n > 0 {
      SlicesAssemble(g, content, files, n - 1);
      SliceFits(g, n - 1);
      var from, to := OffsetAfter(g.bytes, g.partSize, n - 1), OffsetAfter(g.bytes, g.partSize, n);
      assert files[n - 1] == content[from..to];
      assert content[..from] + content[from..to] == content[..to];
    }
  }

  /** The answer to a put that says the part is stored. */
  predicate Acknowledges(g: Geometry, sha: Bytes -> string, s: Session, op: Op, part: int)
    requires g.Planned()
  {
    && op.Put? && op.part == part && Admissible(g, sha, part, op.body, op.presented)
    && Stored(s, sha(op.body), part, op.body, op.putFate).1 in {Created, AlreadyStored}
  }

  lemma {:induction false} RunInSteps(g: Geometry, sha: Bytes -> string, s: Session, a: seq<Op>, b: seq<Op>)
    requires g.Planned()
    ensures Run(g, sha, s, a + b) == Run(g, sha, Run(g, sha, s, a), b)
    decreases |a|
  {
    if a == [] {
      assert a + b == b;
    } else {
      assert (a + b)[1..] == a[1..] + b;
      RunInSteps(g, sha, Step(g, sha, s, a[0]), a[1..], b);
    }
  }

  /** Some put of the part was answered that way. */
  ghost predicate AcknowledgedIn(g: Geometry, sha: Bytes -> string, start: Session, ops: seq<Op>, part: int)
    requires g.Planned()
  {
    exists k :: 0 <= k < |ops| && Acknowledges(g, sha, Run(g, sha, start, ops[..k]), ops[k], part)
  }

  lemma RunOverOne(g: Geometry, sha: Bytes -> string, start: Session, ops: seq<Op>, k: nat)
    requires g.Planned() && k < |ops|
    ensures Run(g, sha, start, ops) ==
      Run(g, sha, Step(g, sha, Run(g, sha, start, ops[..k]), ops[k]), ops[k + 1..])
  {
    hide Step;
    assert ops == ops[..k] + ops[k..] && ops[k..][1..] == ops[k + 1..];
    RunInSteps(g, sha, start, ops[..k], ops[k..]);
  }

  lemma AcknowledgedIsRecorded(g: Geometry, sha: Bytes -> string, s: Session, op: Op, part: int)
    requires g.Planned() && Acknowledges(g, sha, s, op, part)
    ensures part in Step(g, sha, s, op).parts
  {}

  /** A part acknowledged once is recorded for as long as the session exists. */
  lemma AcknowledgedStaysRecorded(g: Geometry, sha: Bytes -> string, start: Session, ops: seq<Op>, part: int)
    requires g.Planned() && Sound(g, sha, start) && AcknowledgedIn(g, sha, start, ops, part)
    ensures Run(g, sha, start, ops).present ==> part in Run(g, sha, start, ops).parts
  {
    hide Run, Step, Sound, Acknowledges;
    var k :| 0 <= k < |ops| && Acknowledges(g, sha, Run(g, sha, start, ops[..k]), ops[k], part);
    var s := Run(g, sha, start, ops[..k]);
    RecordedDigestsNeverChange(g, sha, start, ops[..k]);
    StepKeepsSound(g, sha, s, ops[k]);
    AcknowledgedIsRecorded(g, sha, s, ops[k], part);
    RecordedDigestsNeverChange(g, sha, Step(g, sha, s, ops[k]), ops[k + 1..]);
    RunOverOne(g, sha, start, ops, k);
  }

  lemma AllRecordedCompletes(g: Geometry, sha: Bytes -> string, content: Bytes, s: Session, fate: CompleteFate)
    requires g.Planned() && |content| == g.bytes && sha(content) == g.sha256
    requires Sound(g, sha, s) && HonestFiles(g, content, s)
    requires s.present && s.status == Open && forall part | 0 <= part < g.PartCount() :: part in s.parts
    requires fate.marked && fate.work == WorkFine
    ensures var (t, reply) := Completed(g, sha, s, fate); reply == Created && t.installed == Some(content)
  {
    PartsTile(g.partSize, g.bytes);
    SlicesAssemble(g, content, s.files, g.PartCount());
    assert content[..g.bytes] == content;
  }

  /** An honest client needs one acknowledged put of each part: whatever order,
      repetition and failures the calls went through, whatever is installed then
      is the content, a session that is gone has installed it, and while it is
      open a complete without I/O failure installs it. */
  lemma HonestUploadInstallsItsContent(
    g: Geometry, sha: Bytes -> string, content: Bytes, start: Session, ops: seq<Op>, fate: CompleteFate)
    requires g.Planned() && Fresh(start) && |content| == g.bytes && sha(content) == g.sha256
    requires HonestOps(g, content, ops)
    requires forall part | 0 <= part < g.PartCount() :: AcknowledgedIn(g, sha, start, ops, part)
    ensures var s := Run(g, sha, start, ops);
      && (s.installed.Some? ==> s.installed == Some(content))
      && (!s.present ==> s.installed == Some(content))
      && (s.present && s.status == Open && fate.marked && fate.work == WorkFine ==>
            var (t, reply) := Completed(g, sha, s, fate);
            reply == Created && t.installed == Some(content))
  {
    hide Run, Completed, Sound, HonestOps, AcknowledgedIn;
    var s := Run(g, sha, start, ops);
    FreshIsSound(g, sha, content, start);
    HonestRunKeepsFiles(g, sha, content, start, ops);
    if s.present && s.status == Open && fate.marked && fate.work == WorkFine {
      forall part | 0 <= part < g.PartCount()
        ensures part in s.parts
      {
        AcknowledgedStaysRecorded(g, sha, start, ops, part);
      }
      AllRecordedCompletes(g, sha, content, s, fate);
    }
  }

  lemma FreshIsSound(g: Geometry, sha: Bytes -> string, content: Bytes, start: Session)
    requires g.Planned() && Fresh(start) && |content| == g.bytes
    ensures Sound(g, sha, start) && HonestFiles(g, content, start)
  {}
}
