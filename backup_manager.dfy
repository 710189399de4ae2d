/** The decisions of the backup manager (backup_manager.go): which member to back up, the
    order of the collaborator calls for the two backup operations, the skip when nothing is
    newer, and the revision of the latest stored backup. Every collaborator (Kubernetes, the
    etcd client, the storage backend or writer) is an input reply; every operation returns
    its result together with the record of the calls it made. */
module BackupManager {
  import opened Common
  import opened Pods
  import opened Trace
  import opened Selection
  import opened Naming

  /** What the cluster answers during one attempt: the pod list (each pod with the answer its
      member gives to the revision probe), creating the client for the selected member, the
      Status request that reports the etcd version, and opening the snapshot stream. */
  datatype Cluster = Cluster(
    podList: Reply<seq<Pod>>,
    sourceDial: Reply<()>,
    status: Reply<string>,
    snapshot: Reply<()>)

  /** A storage backend: what Save answers (bytes written) and what GetLatest answers
      (the name of the latest backup, empty when there is none). */
  datatype Backend = Backend(save: Reply<nat>, latest: Reply<string>)

  /** A backup writer: what Write answers (bytes written). */
  datatype Writer = Writer(write: Reply<nat>)

  /** The selected member (its position among the running pods and its name) and its revision. */
  datatype Source = Source(member: nat, name: string, rev: int)

  /** The metadata of a saved backup; `savedBytes` is the count Save returned. */
  datatype BackupStatus = BackupStatus(version: string, revision: int, savedBytes: nat)

  /** The result of an operation and the calls it made, in order. */
  datatype Attempt<T> = Attempt(result: Result<T>, trace: seq<Event>)

  /** The latest stored revision, or the process exits (a backend error is fatal), or parsing
      an unrecognisable name panics. */
  datatype LatestRev = Exits(cause: string) | Panics(name: string) | Latest(rev: nat)

  /** Lists the pods, keeps the Running ones, selects the member with the largest revision and
      creates a client for it; the client stays open for the caller. */
  function EtcdClientWithMaxRevision(c: Cluster): (a: Attempt<Source>)
    ensures a.result.Ok? ==> a.result.value.rev > 0
  {
    match c.podList
    case Errored(cause) => Attempt(Err(Cause(cause)), [ListPods(false)])
    case Returned(items) =>
      var pods := RunningOnly(items);
      if |pods| == 0 then Attempt(Err(NoRunningPods), [ListPods(true)])
      else
        var choice := MaxRevChoice(pods);
        var probed := [ListPods(true)] + ProbeTrace(pods);
        match choice.member
        case None => Attempt(Err(NoReachableMember), probed)
        case Some(k) =>
          match c.sourceDial
          case Errored(cause) => Attempt(Err(CreateClientFailed(Cause(cause))), probed + [DialSource(k, false)])
          case Returned(_) => Attempt(Ok(Source(k, pods[k].name, choice.maxRev)), probed + [DialSource(k, true)])
  }

  /** Fetches the version, opens the snapshot and hands it to the backend, in that order,
      stopping at the first failure; the stream is closed when it was opened. */
  function WriteSnap(c: Cluster, be: Backend, rev: int): (a: Attempt<BackupStatus>)
    ensures a.result.Ok? <==> c.status.Returned? && c.snapshot.Returned? && be.save.Returned?
    ensures a.result.Ok? ==> a.result.value == BackupStatus(c.status.value, rev, be.save.value)
    ensures c.status.Returned? && c.snapshot.Returned? ==>
      |a.trace| > 0 && a.trace[|a.trace| - 1] == Close(SnapshotStream)
  {
    match c.status
    case Errored(cause) => Attempt(Err(VersionNotReceived(cause)), [FetchVersion(false)])
    case Returned(version) =>
      match c.snapshot
      case Errored(cause) => Attempt(Err(SnapshotNotReceived(cause)), [FetchVersion(true), OpenSnapshot(false)])
      case Returned(_) =>
        var started := [FetchVersion(true), OpenSnapshot(true)];
        match be.save
        case Errored(cause) => Attempt(Err(Cause(cause)), started + [Save(version, rev, false), Close(SnapshotStream)])
        case Returned(n) => Attempt(Ok(BackupStatus(version, rev, n)), started + [Save(version, rev, true), Close(SnapshotStream)])
  }

  /** Backs up the member with the largest revision unless that revision is not newer than
      `lastSnapRev`, in which case it returns no status and no error. */
  function SaveSnap(c: Cluster, be: Backend, lastSnapRev: int): (a: Attempt<Option<BackupStatus>>)
    ensures a.result.Ok? && a.result.value.Some? ==>
      a.result.value.value.revision > lastSnapRev && a.result.value.value.revision > 0
    ensures a.result.Err? ==> a.result.error.MaxRevisionClientFailed? || a.result.error.WriteSnapFailed?
    ensures EtcdClientWithMaxRevision(c).result.Ok? ==>
      |a.trace| > 0 && a.trace[|a.trace| - 1] == Close(SourceClient)
  {
    var d := EtcdClientWithMaxRevision(c);
    match d.result
    case Err(e) => Attempt(Err(MaxRevisionClientFailed(e)), d.trace)
    case Ok(src) =>
      if src.rev <= lastSnapRev then Attempt(Ok(None), d.trace + [Close(SourceClient)])
      else
        var w := WriteSnap(c, be, src.rev);
        var closed := d.trace + w.trace + [Close(SourceClient)];
        match w.result
        case Err(e) => Attempt(Err(WriteSnapFailed(e)), closed)
        case Ok(bs) => Attempt(Ok(Some(bs)), closed)
  }

  /** Backs up the member with the largest revision through the writer, under
      `prefix/<version>_<padded revision>_etcd.backup`, and returns that path. Unlike
      SaveSnap it opens the snapshot before fetching the version, and it has no revision gate. */
  function SaveSnapWithPrefix(c: Cluster, w: Writer, prefix: string): (a: Attempt<string>)
    ensures a.result.Ok? ==>
      var d := EtcdClientWithMaxRevision(c);
      d.result.Ok? && c.status.Returned? &&
      a.result.value == JoinPath(prefix, MakeBackupName(c.status.value, d.result.value.rev))
    ensures EtcdClientWithMaxRevision(c).result.Ok? ==>
      |a.trace| > 0 && a.trace[|a.trace| - 1] == Close(SourceClient)
  {
    var d := EtcdClientWithMaxRevision(c);
    match d.result
    case Err(e) => Attempt(Err(CreateClientFailed(e)), d.trace)
    case Ok(src) =>
      var s := StreamToWriter(c, w, prefix, src.rev);
      Attempt(s.result, d.trace + s.trace + [Close(SourceClient)])
  }

  /** What SaveSnapWithPrefix does once the member's client is open: open the snapshot, fetch
      the version, write under the computed path, then close the stream if it was opened. */
  function StreamToWriter(c: Cluster, w: Writer, prefix: string, rev: nat): (a: Attempt<string>)
    ensures a.result.Ok? <==> c.snapshot.Returned? && c.status.Returned? && w.write.Returned?
    ensures a.result.Ok? ==> a.result.value == JoinPath(prefix, MakeBackupName(c.status.value, rev))
    ensures c.snapshot.Returned? ==> |a.trace| > 0 && a.trace[|a.trace| - 1] == Close(SnapshotStream)
  {
    match c.snapshot
    case Errored(cause) => Attempt(Err(SnapshotNotReceived(cause)), [OpenSnapshot(false)])
    case Returned(_) =>
      match c.status
      case Errored(cause) =>
        Attempt(Err(VersionNotReceived(cause)), [OpenSnapshot(true), FetchVersion(false), Close(SnapshotStream)])
      case Returned(version) =>
        var fullPath := JoinPath(prefix, MakeBackupName(version, rev));
        match w.write
        case Errored(cause) =>
          Attempt(Err(SnapshotNotWritten(cause)),
                  [OpenSnapshot(true), FetchVersion(true), Write(fullPath, false), Close(SnapshotStream)])
        case Returned(_) =>
          Attempt(Ok(fullPath), [OpenSnapshot(true), FetchVersion(true), Write(fullPath, true), Close(SnapshotStream)])
  }

  /** The revision of the latest stored backup: 0 when there is none. */
  function GetLatestBackupRev(be: Backend): (r: LatestRev)
    ensures r.Exits? <==> be.latest.Errored?
    ensures be.latest == Returned("") ==> r == Latest(0)
    ensures r.Latest? && be.latest.value != "" ==> ParseRevision(be.latest.value) == Some(r.rev)
    ensures r.Panics? ==> be.latest == Returned(r.name) && ParseRevision(r.name).None?
  {
    match be.latest
    case Errored(cause) => Exits(cause)
    case Returned(name) =>
      if |name| == 0 then Latest(0)
      else
        match ParseRevision(name)
        case None => Panics(name)
        case Some(rev) => Latest(rev)
  }

  // ---- discovery ----

  /** "Some running pod answered with a positive revision." */
  ghost predicate SomePositiveAnswer(pods: seq<Pod>)
  {
    exists i :: 0 <= i < |pods| && pods[i].probe.Answers? && pods[i].probe.rev > 0
  }

  /** The discovery errors, in the order they are checked: the pod list failing, no Running
      pod (reported before any probe), no member answering a positive revision, and creating
      the client for the selected member failing. */
  lemma DiscoveryErrors(c: Cluster)
    ensures var a := EtcdClientWithMaxRevision(c);
      && (c.podList.Errored? ==> a.result == Err(Cause(c.podList.cause)) && a.trace == [ListPods(false)])
      && (c.podList.Returned? && RunningOnly(c.podList.value) == [] ==>
            a.result == Err(NoRunningPods) && a.trace == [ListPods(true)] &&
            a.result.error.Message() == "no running etcd pods found")
      && (c.podList.Returned? && RunningOnly(c.podList.value) != [] ==>
            && (a.result == Err(NoReachableMember) <==> !SomePositiveAnswer(RunningOnly(c.podList.value)))
            && (a.result == Err(NoReachableMember) ==> a.result.error.Message() == "no reachable member")
            && (SomePositiveAnswer(RunningOnly(c.podList.value)) ==>
                  (a.result.Ok? <==> c.sourceDial.Returned?) &&
                  (c.sourceDial.Errored? ==> a.result == Err(CreateClientFailed(Cause(c.sourceDial.cause))))))
  {
    if c.podList.Returned? && RunningOnly(c.podList.value) != [] {
      var pods := RunningOnly(c.podList.value);
      MaxRevChoiceIsFirstMax(pods);
    }
  }

  /** A successful discovery returns the first Running pod answering the largest revision,
      that revision is positive, and every Running pod answered no more. */
  lemma DiscoverySelectsFirstMax(c: Cluster)
    requires EtcdClientWithMaxRevision(c).result.Ok?
    ensures c.podList.Returned?
    ensures var src := EtcdClientWithMaxRevision(c).result.value;
      var pods := RunningOnly(c.podList.value);
      && src.rev > 0
      && src.member < |pods|
      && src.name == pods[src.member].name
      && IsFirstMax(pods, Choice(Some(src.member), src.rev))
  {
    MaxRevChoiceIsFirstMax(RunningOnly(c.podList.value));
  }

  /** Discovery probes exactly the Running pods, each once and in list order, and runs none
      of the backup stages. */
  lemma DiscoveryProbesRunningPods(c: Cluster)
    ensures var a := EtcdClientWithMaxRevision(c);
      && Steps(a.trace) == []
      && (c.podList.Returned? ==>
            var dialed := Collect(a.trace, DialedPod);
            |dialed| == |RunningOnly(c.podList.value)| &&
            forall i :: 0 <= i < |dialed| ==> dialed[i] == i)
      && (c.podList.Errored? ==> Collect(a.trace, DialedPod) == [])
  {
    var a := EtcdClientWithMaxRevision(c);
    if c.podList.Returned? && RunningOnly(c.podList.value) != [] {
      var pods := RunningOnly(c.podList.value);
      var probed := [ListPods(true)] + ProbeTrace(pods);
      ProbeTraceShape(pods);
      CollectAppend([ListPods(true)], ProbeTrace(pods), StepOf);
      CollectAppend([ListPods(true)], ProbeTrace(pods), DialedPod);
      match MaxRevChoice(pods).member
      case None =>
      case Some(k) =>
        var dial := [DialSource(k, c.sourceDial.Returned?)];
        assert a.trace == probed + dial;
        CollectAppend(probed, dial, StepOf);
        CollectAppend(probed, dial, DialedPod);
    }
  }

  /** Discovery closes every probe client it created and leaves open only the client it
      returns. */
  lemma DiscoveryHolds(c: Cluster)
    ensures var a := EtcdClientWithMaxRevision(c);
      Held(a.trace, {}) == Some(if a.result.Ok? then {SourceClient} else {})
  {
    var a := EtcdClientWithMaxRevision(c);
    if c.podList.Returned? && RunningOnly(c.podList.value) != [] {
      var pods := RunningOnly(c.podList.value);
      var probed := [ListPods(true)] + ProbeTrace(pods);
      ProbeTraceReleases(pods, {});
      HeldOne(ListPods(true), {});
      HeldAppend([ListPods(true)], ProbeTrace(pods), {});
      match MaxRevChoice(pods).member
      case None =>
      case Some(k) =>
        var dial := DialSource(k, c.sourceDial.Returned?);
        assert a.trace == probed + [dial];
        assert Held(probed, {}) == Some({});
        HeldOne(dial, {});
        assert Opens(dial) == if c.sourceDial.Returned? then Some(SourceClient) else None;
        assert {} + {SourceClient} == {SourceClient};
        HeldAppend(probed, [dial], {});
    }
  }

  /** A pod that is not Running changes nothing about discovery, wherever it stands. */
  lemma NotRunningPodIgnored(c: Cluster, before: seq<Pod>, p: Pod, after: seq<Pod>)
    requires c.podList == Returned(before + [p] + after)
    requires p.phase != Running
    ensures EtcdClientWithMaxRevision(c) == EtcdClientWithMaxRevision(c.(podList := Returned(before + after)))
  {
    NotRunningIgnored(before, p, after);
  }

  // ---- conditional backup ----

  lemma WriteSnapHolds(c: Cluster, be: Backend, rev: int, held: set<Resource>)
    requires SnapshotStream !in held
    ensures Held(WriteSnap(c, be, rev).trace, held) == Some(held)
  {
    var t := WriteSnap(c, be, rev).trace;
    HeldOne(t[0], held);
    if c.status.Returned? {
      assert t[..1] == [t[0]];
      HeldOne(t[1], held);
      HeldThen([t[0]], [t[1]], held, held, if c.snapshot.Returned? then held + {SnapshotStream} else held);
      if c.snapshot.Returned? {
        var open := held + {SnapshotStream};
        assert open - {SnapshotStream} == held;
        assert t == [t[0]] + [t[1]] + [t[2]] + [t[3]];
        HeldOne(t[2], open);
        HeldOne(t[3], open);
        HeldThen([t[0]] + [t[1]], [t[2]], held, open, open);
        HeldThen([t[0]] + [t[1]] + [t[2]], [t[3]], held, open, held);
      } else {
        assert t == [t[0]] + [t[1]];
      }
    }
  }

  /** The gate: SaveSnap reports "nothing to do" (no status, no error) exactly when a member
      was selected whose revision is not above `lastSnapRev`, and then it neither fetches the
      version, nor opens a snapshot, nor saves. */
  lemma SaveSnapGate(c: Cluster, be: Backend, lastSnapRev: int)
    ensures var a := SaveSnap(c, be, lastSnapRev);
      var d := EtcdClientWithMaxRevision(c);
      && (a.result == Ok(None) <==> d.result.Ok? && d.result.value.rev <= lastSnapRev)
      && (a.result == Ok(None) ==> Steps(a.trace) == [])
  {
    var d := EtcdClientWithMaxRevision(c);
    DiscoveryProbesRunningPods(c);
    CollectAppend(d.trace, [Close(SourceClient)], StepOf);
  }

  /** The stages writeSnap runs, each only after the one before it succeeded. */
  lemma WriteSnapSteps(c: Cluster, be: Backend, rev: int)
    ensures var t := WriteSnap(c, be, rev).trace;
      && (c.status.Errored? ==> Steps(t) == [Step(VersionStage, false)])
      && (c.status.Returned? && c.snapshot.Errored? ==>
            Steps(t) == [Step(VersionStage, true), Step(SnapshotStage, false)])
      && (c.status.Returned? && c.snapshot.Returned? ==>
            Steps(t) == [Step(VersionStage, true), Step(SnapshotStage, true), Step(PersistStage, be.save.Returned?)])
  {
    var t := WriteSnap(c, be, rev).trace;
    var version := FetchVersion(c.status.Returned?);
    CollectOne(version, StepOf);
    if c.status.Returned? {
      var snapshot := OpenSnapshot(c.snapshot.Returned?);
      CollectSnoc([version], snapshot, StepOf);
      if c.snapshot.Returned? {
        var save := Save(c.status.value, rev, be.save.Returned?);
        var close := Close(SnapshotStream);
        assert t == [version] + [snapshot] + [save] + [close];
        CollectSnoc([version] + [snapshot], save, StepOf);
        CollectSnoc([version] + [snapshot] + [save], close, StepOf);
      } else {
        assert t == [version] + [snapshot];
      }
    }
  }

  /** The stages of SaveSnap, which run version, snapshot, save, each only after the one
      before it succeeded; the outcome of each case. */
  lemma SaveSnapStages(c: Cluster, be: Backend, lastSnapRev: int)
    ensures var a := SaveSnap(c, be, lastSnapRev);
      var d := EtcdClientWithMaxRevision(c);
      && (d.result.Err? ==> a.result == Err(MaxRevisionClientFailed(d.result.error)) && Steps(a.trace) == [])
      && (d.result.Ok? && lastSnapRev < d.result.value.rev ==>
            && (c.status.Errored? ==>
                  a.result == Err(WriteSnapFailed(VersionNotReceived(c.status.cause))) &&
                  Steps(a.trace) == [Step(VersionStage, false)])
            && (c.status.Returned? && c.snapshot.Errored? ==>
                  a.result == Err(WriteSnapFailed(SnapshotNotReceived(c.snapshot.cause))) &&
                  Steps(a.trace) == [Step(VersionStage, true), Step(SnapshotStage, false)])
            && (c.status.Returned? && c.snapshot.Returned? && be.save.Errored? ==>
                  a.result == Err(WriteSnapFailed(Cause(be.save.cause))) &&
                  Steps(a.trace) == [Step(VersionStage, true), Step(SnapshotStage, true), Step(PersistStage, false)])
            && (c.status.Returned? && c.snapshot.Returned? && be.save.Returned? ==>
                  a.result.Ok? && a.result.value.Some? &&
                  Steps(a.trace) == [Step(VersionStage, true), Step(SnapshotStage, true), Step(PersistStage, true)]))
  {
    var d := EtcdClientWithMaxRevision(c);
    DiscoveryProbesRunningPods(c);
    if d.result.Ok? && lastSnapRev < d.result.value.rev {
      var w := WriteSnap(c, be, d.result.value.rev);
      WriteSnapSteps(c, be, d.result.value.rev);
      CollectAppend(d.trace, w.trace, StepOf);
      CollectSnoc(d.trace + w.trace, Close(SourceClient), StepOf);
    }
  }

  /** A saved backup carries the selected member's revision, which is above `lastSnapRev`,
      and the version the member reported; the backend was asked to save exactly that. */
  lemma SaveSnapSaves(c: Cluster, be: Backend, lastSnapRev: int)
    requires SaveSnap(c, be, lastSnapRev).result.Ok? && SaveSnap(c, be, lastSnapRev).result.value.Some?
    ensures var bs := SaveSnap(c, be, lastSnapRev).result.value.value;
      var d := EtcdClientWithMaxRevision(c);
      && d.result.Ok?
      && bs.revision == d.result.value.rev
      && lastSnapRev < bs.revision
      && c.status == Returned(bs.version)
      && be.save == Returned(bs.savedBytes)
      && Save(bs.version, bs.revision, true) in SaveSnap(c, be, lastSnapRev).trace
  {
    var d := EtcdClientWithMaxRevision(c);
    var w := WriteSnap(c, be, d.result.value.rev);
    assert w.trace[2] == Save(c.status.value, d.result.value.rev, true);
    assert SaveSnap(c, be, lastSnapRev).trace[|d.trace| + 2] == w.trace[2];
  }

  /** Every client and stream SaveSnap opens is closed exactly once, on every path. */
  lemma SaveSnapReleasesAll(c: Cluster, be: Backend, lastSnapRev: int)
    ensures ReleasesAll(SaveSnap(c, be, lastSnapRev).trace)
  {
    var d := EtcdClientWithMaxRevision(c);
    DiscoveryHolds(c);
    if d.result.Ok? {
      var close := [Close(SourceClient)];
      HeldOne(Close(SourceClient), {SourceClient});
      assert {SourceClient} - {SourceClient} == {};
      if d.result.value.rev <= lastSnapRev {
        HeldThen(d.trace, close, {}, {SourceClient}, {});
      } else {
        var w := WriteSnap(c, be, d.result.value.rev);
        WriteSnapHolds(c, be, d.result.value.rev, {SourceClient});
        HeldThen(d.trace, w.trace, {}, {SourceClient}, {SourceClient});
        HeldThen(d.trace + w.trace, close, {}, {SourceClient}, {});
      }
    }
  }

  // ---- prefix-addressed backup ----

  lemma StreamToWriterSteps(c: Cluster, w: Writer, prefix: string, rev: nat)
    ensures var t := StreamToWriter(c, w, prefix, rev).trace;
      && (c.snapshot.Errored? ==> Steps(t) == [Step(SnapshotStage, false)])
      && (c.snapshot.Returned? && c.status.Errored? ==>
            Steps(t) == [Step(SnapshotStage, true), Step(VersionStage, false)])
      && (c.snapshot.Returned? && c.status.Returned? ==>
            Steps(t) == [Step(SnapshotStage, true), Step(VersionStage, true), Step(PersistStage, w.write.Returned?)])
  {
    var t := StreamToWriter(c, w, prefix, rev).trace;
    var open := OpenSnapshot(c.snapshot.Returned?);
    CollectOne(open, StepOf);
    if c.snapshot.Returned? {
      var version := FetchVersion(c.status.Returned?);
      assert StepOf(version) == Some(Step(VersionStage, c.status.Returned?));
      CollectSnoc([open], version, StepOf);
      if c.status.Errored? {
        assert t == [open] + [version] + [Close(SnapshotStream)];
        CollectSnoc([open] + [version], Close(SnapshotStream), StepOf);
      } else {
        var write := t[2];
        assert t == [open] + [version] + [write] + [Close(SnapshotStream)];
        assert StepOf(write) == Some(Step(PersistStage, w.write.Returned?));
        CollectSnoc([open] + [version], write, StepOf);
        CollectSnoc([open] + [version] + [write], Close(SnapshotStream), StepOf);
      }
    }
  }

  /** SaveSnapWithPrefix opens the snapshot before it fetches the version, writes last, and
      stops at the first failure; it succeeds exactly when every step does. */
  lemma SaveSnapWithPrefixStages(c: Cluster, w: Writer, prefix: string)
    ensures var a := SaveSnapWithPrefix(c, w, prefix);
      var d := EtcdClientWithMaxRevision(c);
      && (d.result.Err? ==> a.result == Err(CreateClientFailed(d.result.error)) && Steps(a.trace) == [])
      && (d.result.Ok? ==>
            && (c.snapshot.Errored? ==>
                  a.result == Err(SnapshotNotReceived(c.snapshot.cause)) &&
                  Steps(a.trace) == [Step(SnapshotStage, false)])
            && (c.snapshot.Returned? && c.status.Errored? ==>
                  a.result == Err(VersionNotReceived(c.status.cause)) &&
                  Steps(a.trace) == [Step(SnapshotStage, true), Step(VersionStage, false)])
            && (c.snapshot.Returned? && c.status.Returned? && w.write.Errored? ==>
                  a.result == Err(SnapshotNotWritten(w.write.cause)) &&
                  Steps(a.trace) == [Step(SnapshotStage, true), Step(VersionStage, true), Step(PersistStage, false)])
            && (c.snapshot.Returned? && c.status.Returned? && w.write.Returned? ==>
                  a.result.Ok? &&
                  Steps(a.trace) == [Step(SnapshotStage, true), Step(VersionStage, true), Step(PersistStage, true)]))
  {
    var d := EtcdClientWithMaxRevision(c);
    if d.result.Ok? {
      SaveSnapWithPrefixSteps(c, w, prefix);
      StreamToWriterSteps(c, w, prefix, d.result.value.rev);
    } else {
      DiscoveryProbesRunningPods(c);
    }
  }

  /** Once the member's client is open, the stages SaveSnapWithPrefix runs are those of the
      streaming part. */
  lemma SaveSnapWithPrefixSteps(c: Cluster, w: Writer, prefix: string)
    requires EtcdClientWithMaxRevision(c).result.Ok?
    ensures Steps(SaveSnapWithPrefix(c, w, prefix).trace) ==
      Steps(StreamToWriter(c, w, prefix, EtcdClientWithMaxRevision(c).result.value.rev).trace)
  {
    var d := EtcdClientWithMaxRevision(c);
    var s := StreamToWriter(c, w, prefix, d.result.value.rev);
    DiscoveryProbesRunningPods(c);
    CollectAppend(d.trace, s.trace, StepOf);
    CollectSnoc(d.trace + s.trace, Close(SourceClient), StepOf);
  }

  lemma StreamToWriterHolds(c: Cluster, w: Writer, prefix: string, rev: nat, held: set<Resource>)
    requires SnapshotStream !in held
    ensures Held(StreamToWriter(c, w, prefix, rev).trace, held) == Some(held)
  {
    var t := StreamToWriter(c, w, prefix, rev).trace;
    var start := OpenSnapshot(c.snapshot.Returned?);
    HeldOne(start, held);
    if c.snapshot.Returned? {
      var open := held + {SnapshotStream};
      assert open - {SnapshotStream} == held;
      var version := FetchVersion(c.status.Returned?);
      var close := Close(SnapshotStream);
      HeldOne(version, open);
      HeldOne(close, open);
      HeldThen([start], [version], held, open, open);
      if c.status.Returned? {
        var write := t[2];
        assert t == [start] + [version] + [write] + [close];
        HeldOne(write, open);
        HeldThen([start] + [version], [write], held, open, open);
        HeldThen([start] + [version] + [write], [close], held, open, held);
      } else {
        assert t == [start] + [version] + [close];
        HeldThen([start] + [version], [close], held, open, held);
      }
    }
  }

  /** Every client and stream SaveSnapWithPrefix opens is closed exactly once, on every path,
      including when fetching the version fails after the snapshot was opened. */
  lemma SaveSnapWithPrefixReleasesAll(c: Cluster, w: Writer, prefix: string)
    ensures ReleasesAll(SaveSnapWithPrefix(c, w, prefix).trace)
  {
    var d := EtcdClientWithMaxRevision(c);
    DiscoveryHolds(c);
    if d.result.Ok? {
      var s := StreamToWriter(c, w, prefix, d.result.value.rev);
      StreamToWriterHolds(c, w, prefix, d.result.value.rev, {SourceClient});
      HeldThen(d.trace, s.trace, {}, {SourceClient}, {SourceClient});
      HeldOne(Close(SourceClient), {SourceClient});
      assert {SourceClient} - {SourceClient} == {};
      HeldThen(d.trace + s.trace, [Close(SourceClient)], {}, {SourceClient}, {});
    }
  }

  /** On success the returned path is the prefix joined with the name built from the fetched
      version and the selected revision; the writer was given that path; and the revision can
      be read back from the name. */
  lemma SaveSnapWithPrefixPath(c: Cluster, w: Writer, prefix: string)
    requires SaveSnapWithPrefix(c, w, prefix).result.Ok?
    ensures var d := EtcdClientWithMaxRevision(c);
      var path := SaveSnapWithPrefix(c, w, prefix).result.value;
      && d.result.Ok? && c.status.Returned?
      && path == JoinPath(prefix, MakeBackupName(c.status.value, d.result.value.rev))
      && ParseRevision(MakeBackupName(c.status.value, d.result.value.rev)) == Some(d.result.value.rev)
      && Write(path, true) in SaveSnapWithPrefix(c, w, prefix).trace
  {
    var d := EtcdClientWithMaxRevision(c);
    var s := StreamToWriter(c, w, prefix, d.result.value.rev);
    ParseMakeRoundTrip(c.status.value, d.result.value.rev);
    assert SaveSnapWithPrefix(c, w, prefix).trace[|d.trace| + 2] == s.trace[2];
  }

  // ---- the revision ledger ----

  /** A backend error is fatal; no backup yet means revision 0; a name made for revision `rev`
      yields `rev`. */
  lemma LatestBackupRevOutcomes(be: Backend)
    ensures GetLatestBackupRev(be).Exits? <==> be.latest.Errored?
    ensures be.latest == Returned("") ==> GetLatestBackupRev(be) == Latest(0)
    ensures forall version: string, rev: nat {:trigger MakeBackupName(version, rev)} ::
      be.latest == Returned(MakeBackupName(version, rev)) ==> GetLatestBackupRev(be) == Latest(rev)
  {
    forall version: string, rev: nat | be.latest == Returned(MakeBackupName(version, rev))
      ensures GetLatestBackupRev(be) == Latest(rev)
    {
      ParseMakeRoundTrip(version, rev);
    }
  }

  /** Feeding the ledger into the gate: with the latest stored backup made at revision
      `stored`, SaveSnap skips exactly when the selected member is not past `stored`. */
  lemma LedgerGate(c: Cluster, be: Backend, version: string, stored: nat)
    requires be.latest == Returned(MakeBackupName(version, stored))
    ensures GetLatestBackupRev(be) == Latest(stored)
    ensures var d := EtcdClientWithMaxRevision(c);
      SaveSnap(c, be, GetLatestBackupRev(be).rev).result == Ok(None) <==>
        d.result.Ok? && d.result.value.rev <= stored
  {
    LatestBackupRevOutcomes(be);
    SaveSnapGate(c, be, stored);
  }
}
