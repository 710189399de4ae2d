/** The pods of the etcd cluster as the Kubernetes pod list reports them, and the filter that
    keeps the ones in the Running phase (backup_manager.go, etcdClientWithMaxRevision). */
module Pods {

  /** The pod phases Kubernetes reports. */
  datatype Phase = Pending | Running | Succeeded | Failed | Unknown

  /** How the etcd member in a pod answers the revision probe of the selection loop:
      creating the client fails, the serializable Get fails, or the Get answers with the
      revision in its response header. */
  datatype Probe = DialFails | GetFails | Answers(rev: int)

  /** A pod of the cluster, with the answer its member gives if it is probed. The pod's
      namespace only forms the member's client URL, which is not modelled. */
  datatype Pod = Pod(name: string, phase: Phase, probe: Probe)

  /** The pods in the Running phase, in list order. */
  function RunningOnly(items: seq<Pod>): (kept: seq<Pod>)
    ensures |kept| <= |items|
    ensures forall i :: 0 <= i < |kept| ==> kept[i].phase == Running
    ensures (forall i :: 0 <= i < |items| ==> items[i].phase == Running) ==> kept == items
    decreases |items|
  {
    if items == [] then []
    else
      var last := items[|items| - 1];
      RunningOnly(items[..|items| - 1]) + (if last.phase == Running then [last] else [])
  }

  /** The loop that appends every Running pod of the list to a fresh slice. */
  method CollectRunning(items: seq<Pod>) returns (pods: seq<Pod>)
    ensures pods == RunningOnly(items)
  {
    pods := [];
    for i := 0 to |items|
      invariant pods == RunningOnly(items[..i])
    {
      assert items[..i + 1][..i] == items[..i];
      if items[i].phase == Running {
        pods := pods + [items[i]];
      }
    }
    assert items[..|items|] == items;
  }

  /** Filtering distributes over concatenation: the order of the kept pods is the list order. */
  lemma {:induction false} RunningOnlyAppend(a: seq<Pod>, b: seq<Pod>)
    ensures RunningOnly(a + b) == RunningOnly(a) + RunningOnly(b)
    decreases |b|
  {
    if b == [] {
      assert a + b == a;
    } else {
      var b' := b[..|b| - 1];
      assert (a + b)[..|a + b| - 1] == a + b';
      assert (a + b)[|a + b| - 1] == b[|b| - 1];
      RunningOnlyAppend(a, b');
    }
  }

  /** Every kept pod is Running, and each pod is kept exactly as often as it occurs in the
      list when it is Running, and never otherwise. */
  lemma {:induction false} RunningOnlyContents(items: seq<Pod>)
    ensures forall i :: 0 <= i < |RunningOnly(items)| ==> RunningOnly(items)[i].phase == Running
    ensures forall p :: multiset(RunningOnly(items))[p] == if p.phase == Running then multiset(items)[p] else 0
    decreases |items|
  {
    if items != [] {
      var prefix := items[..|items| - 1];
      var last := items[|items| - 1];
      RunningOnlyContents(prefix);
      assert items == prefix + [last];
      assert multiset(items) == multiset(prefix) + multiset{last};
    }
  }

  /** A pod that is not Running, wherever it stands in the list, changes nothing. */
  lemma NotRunningIgnored(a: seq<Pod>, p: Pod, b: seq<Pod>)
    requires p.phase != Running
    ensures RunningOnly(a + [p] + b) == RunningOnly(a + b)
  {
    RunningOnlyAppend(a + [p], b);
    RunningOnlyAppend(a, [p]);
    RunningOnlyAppend(a, b);
    assert [p][..0] == [];
  }
}
