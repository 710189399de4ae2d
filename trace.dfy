/** The calls the backup manager makes to its collaborators, recorded in order, and two
    readings of such a record: which clients and streams are still open, and which stages
    of a backup ran. */
module Trace {
  import opened Common

  /** What can be opened and must be closed: the client created to probe a running pod
      (identified by its position in the running list), the client for the selected member,
      and the snapshot stream. */
  datatype Resource = ProbeClient(pod: nat) | SourceClient | SnapshotStream

  /** One collaborator call and whether it succeeded, or the Close of a resource. */
  datatype Event =
    | ListPods(ok: bool)
    | DialProbe(pod: nat, ok: bool)
    | GetRevision(pod: nat, ok: bool)
    | DialSource(pod: nat, ok: bool)
    | FetchVersion(ok: bool)
    | OpenSnapshot(ok: bool)
    | Save(version: string, rev: int, ok: bool)
    | Write(path: string, ok: bool)
    | Close(r: Resource)

  /** The resource an event opens, if it opens one. */
  function Opens(e: Event): Option<Resource>
  {
    if e.DialProbe? && e.ok then Some(ProbeClient(e.pod))
    else if e.DialSource? && e.ok then Some(SourceClient)
    else if e.OpenSnapshot? && e.ok then Some(SnapshotStream)
    else None
  }

  /** The open resources after one event, or None when the event opens something already
      open or closes something that is not open. */
  function Apply(e: Event, held: set<Resource>): Option<set<Resource>>
  {
    if e.Close? then
      (if e.r in held then Some(held - {e.r}) else None)
    else
      match Opens(e)
      case None => Some(held)
      case Some(r) => if r in held then None else Some(held + {r})
  }

  /** The open resources after a whole record, starting from `held`. */
  function Held(t: seq<Event>, held: set<Resource>): Option<set<Resource>>
    decreases |t|
  {
    if t == [] then Some(held)
    else
      match Apply(t[0], held)
      case None => None
      case Some(h) => Held(t[1..], h)
  }

  /** Every resource opened in the record is closed exactly once, and nothing is closed
      that was not open. */
  predicate ReleasesAll(t: seq<Event>)
  {
    Held(t, {}) == Some({})
  }

  lemma {:induction false} HeldAppend(a: seq<Event>, b: seq<Event>, held: set<Resource>)
    ensures Held(a + b, held) == match Held(a, held) case None => None case Some(h) => Held(b, h)
    decreases |a|
  {
    if a == [] {
      assert a + b == b;
    } else {
      assert (a + b)[0] == a[0];
      assert (a + b)[1..] == a[1..] + b;
      match Apply(a[0], held)
      case None =>
      case Some(h) => HeldAppend(a[1..], b, h);
    }
  }

  /** Running two records one after the other. */
  lemma HeldThen(a: seq<Event>, b: seq<Event>, h0: set<Resource>, h1: set<Resource>, h2: set<Resource>)
    requires Held(a, h0) == Some(h1) && Held(b, h1) == Some(h2)
    ensures Held(a + b, h0) == Some(h2)
  {
    HeldAppend(a, b, h0);
  }

  lemma HeldOne(e: Event, held: set<Resource>)
    ensures Held([e], held) == Apply(e, held)
  {
    assert [e][1..] == [];
  }

  /** The stages of writing a backup. */
  datatype Stage = VersionStage | SnapshotStage | PersistStage
  datatype Step = Step(stage: Stage, ok: bool)

  function StepOf(e: Event): Option<Step>
  {
    match e
    case FetchVersion(ok) => Some(Step(VersionStage, ok))
    case OpenSnapshot(ok) => Some(Step(SnapshotStage, ok))
    case Save(_, _, ok) => Some(Step(PersistStage, ok))
    case Write(_, ok) => Some(Step(PersistStage, ok))
    case _ => None
  }

  /** The values `f` picks out of a record, in record order. */
  function Collect<T>(t: seq<Event>, f: Event -> Option<T>): seq<T>
    decreases |t|
  {
    if t == [] then []
    else (match f(t[0]) case None => [] case Some(x) => [x]) + Collect(t[1..], f)
  }

  lemma {:induction false} CollectAppend<T>(a: seq<Event>, b: seq<Event>, f: Event -> Option<T>)
    ensures Collect(a + b, f) == Collect(a, f) + Collect(b, f)
    decreases |a|
  {
    if a == [] {
      assert a + b == b;
    } else {
      assert (a + b)[0] == a[0];
      assert (a + b)[1..] == a[1..] + b;
      CollectAppend(a[1..], b, f);
    }
  }

  lemma CollectOne<T>(e: Event, f: Event -> Option<T>)
    ensures Collect([e], f) == match f(e) case None => [] case Some(x) => [x]
  {
    assert [e][1..] == [];
  }

  /** Collecting from a record extended by one event. */
  lemma CollectSnoc<T>(t: seq<Event>, e: Event, f: Event -> Option<T>)
    ensures Collect(t + [e], f) == Collect(t, f) + match f(e) case None => [] case Some(x) => [x]
  {
    CollectAppend(t, [e], f);
    CollectOne(e, f);
  }

  /** The backup stages a record shows, in the order they ran. */
  function Steps(t: seq<Event>): seq<Step>
  {
    Collect(t, StepOf)
  }
}
