# etcd backup manager: decision logic

This project models in Dafny the decision logic of the etcd-operator backup manager
(`pkg/backup/backup_manager.go`). The manager backs up an etcd cluster that runs in Kubernetes.
It works in four steps:

- It lists the cluster's pods and keeps the ones in the `Running` phase, in list order.
- It probes each of those pods with a serializable `Get` to learn the member's revision. It
  selects the first member that reports the largest positive revision.
- It opens a client to that member, fetches the etcd version and streams a snapshot to a
  storage sink. There are two operations. `SaveSnap` saves through a backend and is skipped
  when the selected revision is not newer than the last backup. `SaveSnapWithPrefix` writes
  to `prefix/<version>_<16-digit revision>_etcd.backup` through a writer.
- `getLatestBackupRev` reads the revision of the latest stored backup back from the
  backend. A backend error there is fatal to the process.

The model treats every collaborator as an input reply:

- Kubernetes pod listing
- creating an etcd client
- the serializable `Get`
- `Status`
- opening the snapshot
- `Save`, `Write` and `GetLatest`

Discovery and the two backup operations are functions that return their result together with
the record (trace) of the collaborator calls they made, in order. The latest-revision query
returns only its outcome; its single `GetLatest` call is not recorded. From the record the
lemmas derive:

- which stages ran, and in what order
- that every client and stream opened is closed exactly once, on every path

The two loops of the source are methods with loop invariants. Each method is proved equal to
a pure fold, and the fold is proved to meet an independent declarative specification:

- the loop that filters Running pods
- the loop that selects the member with the largest revision

Files:

- `common.dfy`: option, collaborator reply, error and result types.
- `pods.dfy`: pods, phases, probe answers, the Running filter.
- `trace.dfy`: collaborator events, the open-resource bookkeeping, the backup stages.
- `selection.dfy`: the selection of the member with the largest revision.
- `naming.dfy`: backup names, their revision parse, and their ordering.
- `backup_manager.dfy`: discovery, the two backup operations, and the latest-revision query.

## Model

| member | source | states |
|---|---|---|
| `Pods.RunningOnly` | pkg/backup/backup_manager.go:178-184 | the Running filter as a fold: the result is no longer than the list, holds only Running pods, and is the whole list when every pod is Running |
| `Pods.CollectRunning` | pkg/backup/backup_manager.go:178-184 | the filter loop returns exactly the Running pods of the list, in list order (equal to `RunningOnly`) |
| `Pods.RunningOnlyAppend` | pkg/backup/backup_manager.go:178-184 | filtering distributes over concatenation, so kept pods keep their list order |
| `Pods.RunningOnlyContents` | pkg/backup/backup_manager.go:181-182 | every kept pod is Running; each Running pod is kept as often as it occurs in the list, and no other pod is kept |
| `Pods.NotRunningIgnored` | pkg/backup/backup_manager.go:181-183 | inserting a pod that is not Running anywhere in the list leaves the filtered list unchanged |
| `Selection.Consider` | pkg/backup/backup_manager.go:215-234 | one step of the scan: the maximum never decreases and bounds the pod's answered revision; the choice changes exactly when the pod answers a revision strictly above the maximum so far, and then becomes that pod with that revision |
| `Selection.MaxRevChoice` | pkg/backup/backup_manager.go:201-237 | the fold never returns a negative maximum; a chosen member is in range, has a positive revision, and reported exactly the returned maximum |
| `Selection.MaxRevChoiceIsFirstMax` | pkg/backup/backup_manager.go:202-236 | the returned revision bounds every answered revision; a member is chosen iff some probe answered a positive revision; the chosen member is the first to answer the maximum |
| `Selection.FirstMaxUnique` | pkg/backup/backup_manager.go:231-234 | at most one (member, revision) pair meets the first-maximum specification, so it fixes the selection |
| `Selection.OnlyAnswersMatter` | pkg/backup/backup_manager.go:215-228 | probes that fail at client creation or at the Get are skipped: pod lists that agree on which probes answered and with which revisions select the same member and maximum |
| `Selection.GetMemberWithMaxRev` | pkg/backup/backup_manager.go:201-237 | the probe loop returns the fold's member and maximum, meets the first-maximum specification, and makes exactly the calls of `ProbeTrace`, with the deferred closes last |
| `Selection.ProbeTrace` | pkg/backup/backup_manager.go:204-236 | the calls of the scan followed by its deferred closes: only probe-client creations, revision Gets and probe-client closes, at most three per pod |
| `Selection.ProbeTraceReleases` | pkg/backup/backup_manager.go:215-220 | every probe client created is closed exactly once before the selection returns, and other open resources are untouched |
| `Selection.ProbesInListOrder` | pkg/backup/backup_manager.go:204-215 | the loop tries to create a client for every pod it is given, once each, in list order |
| `Selection.ProbeTraceShape` | pkg/backup/backup_manager.go:204-236 | the selection runs no backup stage; its client creations cover the given pods in list order |
| `Selection.FirstOfEqualMaximaChosen` | pkg/backup/backup_manager.go:231-234 | worked case: an unreachable pod then two pods answering 9 selects the first of the two, with maximum 9 |
| `BackupManager.EtcdClientWithMaxRevision` | pkg/backup/backup_manager.go:172-199 | a successful discovery returns a positive revision |
| `BackupManager.DiscoveryErrors` | pkg/backup/backup_manager.go:173-197 | error order: a pod-list error is returned as is; no Running pod gives an error whose text is "no running etcd pods found", before any probe; the error with text "no reachable member" exactly when no Running pod answered a positive revision; otherwise the result depends on creating the member's client |
| `BackupManager.DiscoverySelectsFirstMax` | pkg/backup/backup_manager.go:189-198 | on success the member is the first Running pod answering the largest revision, that revision is positive, and the returned name is that pod's |
| `BackupManager.DiscoveryProbesRunningPods` | pkg/backup/backup_manager.go:178-189 | discovery probes exactly the Running pods, once each, in list order, and runs no backup stage |
| `BackupManager.DiscoveryHolds` | pkg/backup/backup_manager.go:189-198 | after discovery only the selected member's client is open on success, and nothing is open on error |
| `BackupManager.NotRunningPodIgnored` | pkg/backup/backup_manager.go:178-184 | a pod that is not Running changes neither the discovery result nor its calls |
| `BackupManager.SaveSnap` | pkg/backup/backup_manager.go:74-93 | a returned status has a positive revision above `lastSnapRev`; every error is wrapped as a discovery failure or a write failure; once the member's client was created, closing it is the last call |
| `BackupManager.WriteSnap` | pkg/backup/backup_manager.go:95-125 | succeeds exactly when Status, Snapshot and Save all succeed; the status holds the version Status reported, the given revision and the byte count Save returned; once the snapshot was opened, closing it is the last call |
| `BackupManager.SaveSnapGate` | pkg/backup/backup_manager.go:81-84 | SaveSnap returns no status and no error exactly when the selected revision is at most `lastSnapRev`; it then fetches no version, opens no snapshot and saves nothing |
| `BackupManager.WriteSnapSteps` | pkg/backup/backup_manager.go:98-114 | writeSnap runs version, snapshot, save in that order; each stage runs only after the one before it succeeded |
| `BackupManager.SaveSnapStages` | pkg/backup/backup_manager.go:74-124 | SaveSnap's outcome and stage sequence in every case: a discovery error is wrapped and no stage runs; a version error stops before the snapshot; a snapshot error stops before save; a save error yields no status; success runs all three stages |
| `BackupManager.SaveSnapSaves` | pkg/backup/backup_manager.go:111-124 | a returned status carries the selected revision, which is above `lastSnapRev`; the version Status reported; the byte count Save returned; the backend was asked to save that version and revision |
| `BackupManager.SaveSnapReleasesAll` | pkg/backup/backup_manager.go:79-109 | on every path SaveSnap closes every client and stream it opened exactly once |
| `BackupManager.SaveSnapWithPrefix` | pkg/backup/backup_manager.go:133-158 | a returned path is the prefix joined with the backup name for the version Status reported and the selected revision; once the member's client was created, closing it is the last call |
| `BackupManager.StreamToWriter` | pkg/backup/backup_manager.go:140-157 | succeeds exactly when Snapshot, Status and Write all succeed; the returned path is the prefix joined with the backup name for the reported version and the given revision; once the snapshot was opened, closing it is the last call |
| `BackupManager.StreamToWriterSteps` | pkg/backup/backup_manager.go:140-157 | after the client is open, SaveSnapWithPrefix opens the snapshot, then fetches the version, then writes; each only after the one before it succeeded |
| `BackupManager.SaveSnapWithPrefixStages` | pkg/backup/backup_manager.go:133-158 | SaveSnapWithPrefix's outcome and stage sequence in every case; it succeeds exactly when discovery, snapshot, version and write all succeed, and otherwise returns an error and no path |
| `BackupManager.SaveSnapWithPrefixReleasesAll` | pkg/backup/backup_manager.go:138-146 | on every path SaveSnapWithPrefix closes every client and stream it opened exactly once, including a version failure after the snapshot was opened |
| `BackupManager.SaveSnapWithPrefixPath` | pkg/backup/backup_manager.go:127-157 | a returned path is the prefix joined with `<version>_<padded rev>_etcd.backup` for the fetched version and the selected revision; the writer received that path; the revision parses back from the name |
| `BackupManager.GetLatestBackupRev` | pkg/backup/backup_manager.go:239-249 | exits exactly when GetLatest fails; an empty name gives 0; a non-empty name gives the revision it parses to; it panics only on a name that does not parse |
| `BackupManager.LatestBackupRevOutcomes` | pkg/backup/backup_manager.go:239-249 | a backend error is fatal, and only a backend error; an empty latest name gives 0; a name made for revision r gives r |
| `BackupManager.LedgerGate` | pkg/backup/backup_manager.go:239-249 | when the latest backup was made at revision r, SaveSnap given the ledger's answer is skipped exactly when the selected revision is at most r |
| `Naming.MakeBackupName` | pkg/backup/backup_manager.go:129-131 | the name is the version, `_`, the revision padded to at least 16 digits, and `_etcd.backup`: it is at least that long and has `_` right after the version |
| `Naming.JoinPath` | pkg/backup/backup_manager.go:152 | an empty prefix gives the name itself; otherwise the path is one longer than prefix and name together and has `/` right after the prefix |
| `Naming.JoinPathParts` | pkg/backup/backup_manager.go:152 | under a non-empty prefix the path is the prefix, then `/`, then the name: its first part is the prefix and what follows the `/` is the name |
| `Naming.ParseRevision` | pkg/backup/backup_manager.go:248 | a name parses only if it ends in `_etcd.backup` with at least two characters before that suffix; its inverse is stated by `Naming.ParseMakeRoundTrip` |
| `Naming.ParseMakeRoundTrip` | pkg/backup/backup_manager.go:129-131 | parsing the revision out of a backup name gives back the revision it was made with, for every version string |
| `Naming.NameOrder` | pkg/backup/backup_manager.go:129-131 | for revisions below 10^16, names of one version sort lexicographically exactly as their revisions sort numerically |
| `Naming.DocumentedName` | pkg/backup/backup_manager.go:130-131 | version 3.1.8 at revision 1 gives `3.1.8_0000000000000001_etcd.backup` |
| `Naming.DocumentedPath` | pkg/backup/backup_manager.go:129-132 | the documented full path: prefix `etcd-backups/v1/default/example-etcd-cluster`, then `/`, then `3.1.8_0000000000000001_etcd.backup` |

## Left out

- Kubernetes pod listing, client creation, the serializable `Get`, `Status`, the snapshot
  stream and the backend/writer are inputs: each is a success-or-failure reply. Creating the
  selected member's client has one reply, whichever member is selected.
- TLS configuration, member client URLs, dial/request/snapshot timeouts and contexts are not
  modelled. A timeout appears only as a failed reply. Context cancel functions are not
  tracked as resources.
- When opening the snapshot fails in writeSnap (backup_manager.go:103-107) or in
  SaveSnapWithPrefix (backup_manager.go:140-144), the source returns before `defer cancel()`
  is registered, so that timeout context is never cancelled. `SaveSnapReleasesAll` and
  `SaveSnapWithPrefixReleasesAll` cover clients and streams only and say nothing about it.
- The pod namespace and the member client URL built from it are not modelled.
- The contents of the snapshot stream are not modelled. The backend and writer are opaque
  sinks that report a byte count or an error.
- `BackupManager.SaveSnapSaves`: the status keeps the raw byte count from Save, not the
  result of `util.ToMB`. The clock-derived `CreationTime` and `TimeTookInSecond` fields are
  omitted.
- `util.MakeBackupName` and `util.MustParseRevision` are replaced by the model's own
  definitions of the format in SaveSnapWithPrefix's doc comment. The revision is written in
  decimal, padded to at least 16 digits. Parsing strips the `_etcd.backup` suffix and reads
  the digits after the last `_`. The real helpers' radix and split rule are unknown, so
  `Naming.ParseMakeRoundTrip`, `Naming.NameOrder`, `BackupManager.LatestBackupRevOutcomes`
  and `BackupManager.LedgerGate` are about this format. For a non-empty name it cannot
  parse, `GetLatestBackupRev` returns `Panics`. That follows Go's `Must` naming convention.
- `BackupManager.SaveSnapWithPrefix`: its doc comment (backup_manager.go:127-128) says it
  returns the file size and the full path. The code discards Write's byte count
  (backup_manager.go:153) and returns only the path. The model follows the code.
- `logrus` logging is left out. The process exit of `logrus.Fatal` is the `Exits` outcome.
- `path.Join`'s cleaning of `..` and repeated slashes is left out. Joining is concatenation
  with `/`, and an empty prefix adds nothing, as in `path.Join`.
- Revisions are unbounded integers. The 64-bit range of `int64` is not enforced; no
  comparison in the source depends on wrap-around.
- The constructors `NewBackupManager` and `NewBackupManagerFromWriter` only store their
  arguments. The model passes the backend or writer to each operation instead.
