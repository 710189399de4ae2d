/** Selection of the etcd member with the largest revision (backup_manager.go,
    getMemberWithMaxRev): every running pod is probed in list order, failed probes are
    skipped, and a member replaces the current choice only on a strictly larger revision. */
module Selection {
  import opened Common
  import opened Pods
  import opened Trace

  /** The chosen member (its position in the running list) and the largest revision seen. */
  datatype Choice = Choice(member: Option<nat>, maxRev: int)

  /** One step of the scan: pod `i` with probe outcome `p` against the choice so far. */
  function Consider(c: Choice, i: nat, p: Probe): (r: Choice)
    ensures r.maxRev >= c.maxRev
    ensures p.Answers? ==> r.maxRev >= p.rev
    ensures r == c <==> !(p.Answers? && p.rev > c.maxRev)
    ensures r != c ==> r.member == Some(i) && p == Answers(r.maxRev)
  {
    if p.Answers? && p.rev > c.maxRev then Choice(Some(i), p.rev) else c
  }

  /** The scan as a left fold, starting from no member and revision 0. */
  function MaxRevChoice(pods: seq<Pod>): (c: Choice)
    ensures c.maxRev >= 0
    ensures c.member.Some? ==> c.member.value < |pods| && c.maxRev > 0
    ensures c.member.Some? ==> pods[c.member.value].probe == Answers(c.maxRev)
    decreases |pods|
  {
    if pods == [] then Choice(None, 0)
    else Consider(MaxRevChoice(pods[..|pods| - 1]), |pods| - 1, pods[|pods| - 1].probe)
  }

  /** Declarative meaning of the selection: the revision is the largest answered one (0 when
      none is positive), and the member is the FIRST pod answering it, if it is positive. */
  ghost predicate IsFirstMax(pods: seq<Pod>, c: Choice)
  {
    && c.maxRev >= 0
    && (forall i :: 0 <= i < |pods| && pods[i].probe.Answers? ==> pods[i].probe.rev <= c.maxRev)
    && (c.member.None? ==> c.maxRev == 0)
    && (c.member.Some? ==>
          && c.member.value < |pods|
          && c.maxRev > 0
          && pods[c.member.value].probe == Answers(c.maxRev)
          && forall j :: 0 <= j < c.member.value && pods[j].probe.Answers? ==> pods[j].probe.rev < c.maxRev)
  }

  /** The fold meets the declarative meaning; in particular no member is chosen exactly when
      no probe answered with a positive revision. */
  lemma {:induction false} MaxRevChoiceIsFirstMax(pods: seq<Pod>)
    ensures IsFirstMax(pods, MaxRevChoice(pods))
    ensures MaxRevChoice(pods).member.None? <==>
      forall i :: 0 <= i < |pods| && pods[i].probe.Answers? ==> pods[i].probe.rev <= 0
    decreases |pods|
  {
    if pods != [] {
      var prefix := pods[..|pods| - 1];
      MaxRevChoiceIsFirstMax(prefix);
      assert forall i :: 0 <= i < |prefix| ==> prefix[i] == pods[i];
    }
  }

  /** At most one choice has that meaning, so the fold is the only possible selection. */
  lemma FirstMaxUnique(pods: seq<Pod>, c1: Choice, c2: Choice)
    requires IsFirstMax(pods, c1) && IsFirstMax(pods, c2)
    ensures c1 == c2
  {
    if c1.member.Some? {
      assert pods[c1.member.value].probe.rev <= c2.maxRev;
    }
    if c2.member.Some? {
      assert pods[c2.member.value].probe.rev <= c1.maxRev;
    }
  }

  /** Failed probes are skipped: two pod lists whose probes answer the same revisions at the
      same positions give the same choice, however the other probes failed and whatever the
      pods are called. */
  lemma OnlyAnswersMatter(pods: seq<Pod>, other: seq<Pod>)
    requires |pods| == |other|
    requires forall i :: 0 <= i < |pods| ==>
      (pods[i].probe.Answers? <==> other[i].probe.Answers?) &&
      (pods[i].probe.Answers? ==> pods[i].probe.rev == other[i].probe.rev)
    ensures MaxRevChoice(pods) == MaxRevChoice(other)
  {
    var c := MaxRevChoice(pods);
    MaxRevChoiceIsFirstMax(pods);
    MaxRevChoiceIsFirstMax(other);
    if c.member.Some? {
      assert other[c.member.value].probe == Answers(c.maxRev);
    }
    assert IsFirstMax(other, c);
    FirstMaxUnique(other, c, MaxRevChoice(other));
  }

  /** The calls made for pod `i`: create its client, then, if that worked, the serializable Get. */
  function ProbeCalls(i: nat, p: Probe): seq<Event>
  {
    if p.DialFails? then [DialProbe(i, false)] else [DialProbe(i, true), GetRevision(i, p.Answers?)]
  }

  /** The Close the scan defers for pod `i`: only a client that was created is closed. */
  function DeferredClose(i: nat, p: Probe): seq<Event>
  {
    if p.DialFails? then [] else [Close(ProbeClient(i))]
  }

  /** The calls of the whole scan, in list order. */
  function ProbeLoop(pods: seq<Pod>): seq<Event>
    decreases |pods|
  {
    if pods == [] then []
    else ProbeLoop(pods[..|pods| - 1]) + ProbeCalls(|pods| - 1, pods[|pods| - 1].probe)
  }

  /** The deferred Closes, last deferred first, as they run when the scan returns. */
  function DeferredCloses(pods: seq<Pod>): seq<Event>
    decreases |pods|
  {
    if pods == [] then []
    else DeferredClose(|pods| - 1, pods[|pods| - 1].probe) + DeferredCloses(pods[..|pods| - 1])
  }

  /** Everything the selection does to its collaborators: it only creates probe clients,
      sends the revision Get and closes probe clients, at most three calls per pod. */
  function ProbeTrace(pods: seq<Pod>): (t: seq<Event>)
    ensures |t| <= 3 * |pods|
    ensures forall k :: 0 <= k < |t| ==>
      t[k].DialProbe? || t[k].GetRevision? || (t[k].Close? && t[k].r.ProbeClient?)
  {
    ProbeLoopEvents(pods);
    DeferredClosesEvents(pods);
    ProbeLoop(pods) + DeferredCloses(pods)
  }

  /** The scan makes at most two calls per pod, all of them probe calls. */
  lemma {:induction false} ProbeLoopEvents(pods: seq<Pod>)
    ensures |ProbeLoop(pods)| <= 2 * |pods|
    ensures forall k :: 0 <= k < |ProbeLoop(pods)| ==>
      ProbeLoop(pods)[k].DialProbe? || ProbeLoop(pods)[k].GetRevision?
    decreases |pods|
  {
    if pods != [] {
      ProbeLoopEvents(pods[..|pods| - 1]);
    }
  }

  /** At most one deferred Close per pod, each of a probe client. */
  lemma {:induction false} DeferredClosesEvents(pods: seq<Pod>)
    ensures |DeferredCloses(pods)| <= |pods|
    ensures forall k :: 0 <= k < |DeferredCloses(pods)| ==>
      DeferredCloses(pods)[k].Close? && DeferredCloses(pods)[k].r.ProbeClient?
    decreases |pods|
  {
    if pods != [] {
      DeferredClosesEvents(pods[..|pods| - 1]);
    }
  }

  /** The selection loop: probes each pod, skips failures, keeps the first strictly larger
      revision, and closes the probe clients it created when it returns. */
  method GetMemberWithMaxRev(pods: seq<Pod>) returns (member: Option<nat>, maxRev: int, trace: seq<Event>)
    ensures Choice(member, maxRev) == MaxRevChoice(pods)
    ensures IsFirstMax(pods, Choice(member, maxRev))
    ensures trace == ProbeTrace(pods)
  {
    member, maxRev := None, 0;
    trace := [];
    var deferred: seq<Event> := [];
    for i := 0 to |pods|
      invariant Choice(member, maxRev) == MaxRevChoice(pods[..i])
      invariant trace == ProbeLoop(pods[..i])
      invariant deferred == DeferredCloses(pods[..i])
    {
      assert pods[..i + 1][..i] == pods[..i];
      var probe := pods[i].probe;
      if probe.DialFails? {
        trace := trace + [DialProbe(i, false)];
        continue;
      }
      trace := trace + [DialProbe(i, true)];
      deferred := [Close(ProbeClient(i))] + deferred;
      if probe.GetFails? {
        trace := trace + [GetRevision(i, false)];
        continue;
      }
      trace := trace + [GetRevision(i, true)];
      if probe.rev > maxRev {
        maxRev := probe.rev;
        member := Some(i);
      }
    }
    assert pods[..|pods|] == pods;
    MaxRevChoiceIsFirstMax(pods);
    trace := trace + deferred;
  }

  /** The probe clients the scan creates. */
  function OpenedProbes(pods: seq<Pod>): set<Resource>
    decreases |pods|
  {
    if pods == [] then {}
    else
      OpenedProbes(pods[..|pods| - 1]) +
      (if pods[|pods| - 1].probe.DialFails? then {} else {ProbeClient(|pods| - 1)})
  }

  lemma {:induction false} OpenedProbesBelow(pods: seq<Pod>)
    ensures forall r :: r in OpenedProbes(pods) ==> r.ProbeClient? && r.pod < |pods|
    decreases |pods|
  {
    if pods != [] {
      OpenedProbesBelow(pods[..|pods| - 1]);
    }
  }

  predicate NoProbeClients(held: set<Resource>)
  {
    forall r :: r in held ==> !r.ProbeClient?
  }

  lemma {:induction false} ProbeLoopOpens(pods: seq<Pod>, held: set<Resource>)
    requires NoProbeClients(held)
    ensures Held(ProbeLoop(pods), held) == Some(held + OpenedProbes(pods))
    decreases |pods|
  {
    if pods == [] {
      assert held + {} == held;
    } else {
      var prefix := pods[..|pods| - 1];
      var i := |pods| - 1;
      var h := held + OpenedProbes(prefix);
      ProbeLoopOpens(prefix, held);
      OpenedProbesBelow(prefix);
      assert ProbeClient(i) !in h;
      var calls := ProbeCalls(i, pods[i].probe);
      if pods[i].probe.DialFails? {
        assert Held(calls, h) == Some(h);
        assert h == held + OpenedProbes(pods);
      } else {
        assert calls[1..] == [GetRevision(i, pods[i].probe.Answers?)];
        assert Held(calls[1..], h + {ProbeClient(i)}) == Some(h + {ProbeClient(i)});
        assert Held(calls, h) == Some(h + {ProbeClient(i)});
        assert h + {ProbeClient(i)} == held + OpenedProbes(pods);
      }
      HeldAppend(ProbeLoop(prefix), calls, held);
    }
  }

  lemma {:induction false} DeferredClosesRelease(pods: seq<Pod>, held: set<Resource>)
    requires NoProbeClients(held)
    ensures Held(DeferredCloses(pods), held + OpenedProbes(pods)) == Some(held)
    decreases |pods|
  {
    if pods == [] {
      assert held + {} == held;
    } else {
      var prefix := pods[..|pods| - 1];
      var i := |pods| - 1;
      var h := held + OpenedProbes(prefix);
      OpenedProbesBelow(prefix);
      assert ProbeClient(i) !in h;
      var closes := DeferredClose(i, pods[i].probe);
      if pods[i].probe.DialFails? {
        assert held + OpenedProbes(pods) == h;
        assert Held(closes, h) == Some(h);
      } else {
        assert held + OpenedProbes(pods) == h + {ProbeClient(i)};
        assert (h + {ProbeClient(i)}) - {ProbeClient(i)} == h;
        assert Held(closes, h + {ProbeClient(i)}) == Some(h);
      }
      DeferredClosesRelease(prefix, held);
      HeldAppend(closes, DeferredCloses(prefix), held + OpenedProbes(pods));
    }
  }

  /** Every probe client the scan creates is closed exactly once before it returns, and it
      leaves the resources it was given as it found them. */
  lemma ProbeTraceReleases(pods: seq<Pod>, held: set<Resource>)
    requires NoProbeClients(held)
    ensures Held(ProbeTrace(pods), held) == Some(held)
  {
    ProbeLoopOpens(pods, held);
    DeferredClosesRelease(pods, held);
    HeldThen(ProbeLoop(pods), DeferredCloses(pods), held, held + OpenedProbes(pods), held);
  }

  function DialedPod(e: Event): Option<nat>
  {
    if e.DialProbe? then Some(e.pod) else None
  }

  /** The scan tries every running pod once, in list order. */
  lemma {:induction false} ProbesInListOrder(pods: seq<Pod>)
    ensures var dialed := Collect(ProbeLoop(pods), DialedPod);
      |dialed| == |pods| && forall i :: 0 <= i < |pods| ==> dialed[i] == i
    decreases |pods|
  {
    if pods != [] {
      var prefix := pods[..|pods| - 1];
      var i: nat := |pods| - 1;
      ProbesInListOrder(prefix);
      var calls := ProbeCalls(i, pods[i].probe);
      var dial := DialProbe(i, !pods[i].probe.DialFails?);
      CollectOne(dial, DialedPod);
      if !pods[i].probe.DialFails? {
        var get := GetRevision(i, pods[i].probe.Answers?);
        assert calls == [dial] + [get];
        CollectSnoc([dial], get, DialedPod);
      }
      assert Collect(calls, DialedPod) == [i];
      assert ProbeLoop(pods) == ProbeLoop(prefix) + calls;
      CollectAppend(ProbeLoop(prefix), calls, DialedPod);
      assert Collect(ProbeLoop(pods), DialedPod) == Collect(ProbeLoop(prefix), DialedPod) + [i];
    }
  }

  lemma {:induction false} DeferredClosesHaveNoDials(pods: seq<Pod>)
    ensures Collect(DeferredCloses(pods), DialedPod) == []
    ensures Steps(DeferredCloses(pods)) == []
    decreases |pods|
  {
    if pods != [] {
      var prefix := pods[..|pods| - 1];
      var closes := DeferredClose(|pods| - 1, pods[|pods| - 1].probe);
      DeferredClosesHaveNoDials(prefix);
      CollectAppend(closes, DeferredCloses(prefix), DialedPod);
      CollectAppend(closes, DeferredCloses(prefix), StepOf);
      if closes != [] {
        CollectOne(closes[0], DialedPod);
        CollectOne(closes[0], StepOf);
        assert closes == [closes[0]];
      }
    }
  }

  lemma {:induction false} ProbeLoopHasNoSteps(pods: seq<Pod>)
    ensures Steps(ProbeLoop(pods)) == []
    decreases |pods|
  {
    if pods != [] {
      var prefix := pods[..|pods| - 1];
      var calls := ProbeCalls(|pods| - 1, pods[|pods| - 1].probe);
      ProbeLoopHasNoSteps(prefix);
      CollectAppend(ProbeLoop(prefix), calls, StepOf);
      if !pods[|pods| - 1].probe.DialFails? {
        var rest := calls[1..];
        assert rest[1..] == [];
        assert StepOf(rest[0]) == None;
        assert Collect(rest, StepOf) == Collect(rest[1..], StepOf);
      }
      assert Steps(calls) == [];
    }
  }

  /** The selection runs none of the backup stages, and tries each running pod once, in order. */
  lemma ProbeTraceShape(pods: seq<Pod>)
    ensures Steps(ProbeTrace(pods)) == []
    ensures var dialed := Collect(ProbeTrace(pods), DialedPod);
      |dialed| == |pods| && forall i :: 0 <= i < |pods| ==> dialed[i] == i
  {
    ProbeLoopHasNoSteps(pods);
    DeferredClosesHaveNoDials(pods);
    ProbesInListOrder(pods);
    CollectAppend(ProbeLoop(pods), DeferredCloses(pods), StepOf);
    CollectAppend(ProbeLoop(pods), DeferredCloses(pods), DialedPod);
  }

  // ---- worked scenario ----

  /** An unreachable pod is skipped and the first of two pods answering 9 is chosen. */
  lemma FirstOfEqualMaximaChosen()
    ensures MaxRevChoice([
      Pod("x", Running, DialFails),
      Pod("y", Running, Answers(9)),
      Pod("z", Running, Answers(9))]) == Choice(Some(1), 9)
  {
    var pods := [
      Pod("x", Running, DialFails),
      Pod("y", Running, Answers(9)),
      Pod("z", Running, Answers(9))];
    assert pods[..2][..1] == pods[..1];
    assert pods[..1][..0] == [];
    assert MaxRevChoice(pods[..1]) == Choice(None, 0);
    assert MaxRevChoice(pods[..2]) == Choice(Some(1), 9);
  }
}
