/**
  The reconcile pass of the backup controller (src/controller.go). For one
  Deployment or DaemonSet it fetches the object, walks its init containers
  and then its containers in index order, copies every image that is not yet
  in the backup registry and points the container at the copy, and writes
  the object back when something changed. The first failed copy abandons the
  pass without an error and without a write.

  The cluster client is not modelled: a `Cluster` value supplies the outcome
  of each fetch and each write, and the registry's network operations come
  from a `Remote` (see ImageRegistry). What the pass did is returned as
  `Effects`: whether it fetched, the registry calls it made in order, and the
  object it wrote, if any.
 */
module Controller {
  import opened Wrappers
  import opened ImageRegistry
  import opened Seqs

  const KubeSystem: string := "kube-system"
  const DeploymentType: string := "Deployment"
  const DaemonSetType: string := "DaemonSet"

  /** The two kinds of workload the controller handles. */
  datatype Kind = Deployment | DaemonSet

  /** The `k8sType` switch: the two supported type names, anything else unsupported. */
  function KindOf(k8sType: string): (k: Option<Kind>)
    ensures k == Some(Deployment) <==> k8sType == DeploymentType
    ensures k == Some(DaemonSet) <==> k8sType == DaemonSetType
    ensures k.None? <==> k8sType != DeploymentType && k8sType != DaemonSetType
  {
    if k8sType == DeploymentType then Some(Deployment)
    else if k8sType == DaemonSetType then Some(DaemonSet)
    else None
  }

  /** The namespaced name of the object to reconcile. */
  datatype Request = Request(namespace: string, name: string)

  /** A container of the pod template: only its name and image matter here. */
  datatype Container = Container(name: string, image: string)

  /** The pod template of a Deployment or DaemonSet, reduced to its two container lists. */
  datatype Workload = Workload(initContainers: seq<Container>, containers: seq<Container>)

  /** What `client.Get` gives back. */
  datatype Fetch = Found(obj: Workload) | NotFound | FetchFailed(reason: string)

  /**
    The outcomes of the cluster client, fixed in advance: the fetch of an
    object of a kind, and the error (if any) of writing back the object of
    that kind and name with the given containers.
   */
  datatype Cluster = Cluster(
    get: (Kind, Request) -> Fetch,
    update: (Kind, Request, Workload) -> Option<string>)

  /** `reconcileBackup`: the client, the shared registry configuration and the type name. */
  datatype ReconcileBackup = ReconcileBackup(client: Cluster, registry: Registry, k8sType: string)

  /** The errors a reconcile returns: a failed fetch, or a failed write of a kind. */
  datatype ReconcileError = CouldNotFetch(reason: string) | CouldNotWrite(kind: Kind, reason: string)

  /** What a reconcile did: fetched or not, the registry calls in order, and the object written. */
  datatype Effects = Effects(fetched: bool, registryCalls: seq<Call>, written: Option<Workload>)

  /** The returned error together with what was done. */
  datatype Outcome = Outcome(err: Option<ReconcileError>, effects: Effects)

  /** Nothing fetched, no registry call, nothing written. */
  const Idle: Effects := Effects(false, [], None)

  /**
    The state of one container loop: the containers handled so far, whether
    `objectChanged` was set, whether a backup failed, and the registry calls.
   */
  datatype Progress = Progress(out: seq<Container>, changed: bool, failed: bool, calls: seq<Call>)

  /** Whether the container's image needs a backup. */
  predicate NeedsBackup(reg: Registry, c: Container)
  {
    !IsImageFromBackUp(reg, c.image)
  }

  /** Whether backing up the container's image fails. */
  predicate FailsOn(reg: Registry, remote: Remote, c: Container)
  {
    NeedsBackup(reg, c) && Backup(reg, remote, c.image).err.Some?
  }

  /** The registry calls handling one container makes. */
  function StepCalls(reg: Registry, remote: Remote, c: Container): seq<Call>
  {
    if NeedsBackup(reg, c) then Backup(reg, remote, c.image).calls else []
  }

  /** One iteration of a container loop. */
  function Step(reg: Registry, remote: Remote, p: Progress, c: Container): Progress
  {
    if p.failed then p
    else if !NeedsBackup(reg, c) then p.(out := p.out + [c])
    else
      var a := Backup(reg, remote, c.image);
      if a.err.Some? then p.(changed := true, failed := true, calls := p.calls + a.calls)
      else p.(out := p.out + [c.(image := a.name)], changed := true, calls := p.calls + a.calls)
  }

  /** A whole container loop, one step per container in index order. */
  function Run(reg: Registry, remote: Remote, cs: seq<Container>): Progress
    decreases |cs|
  {
    if cs == [] then Progress([], false, false, [])
    else Step(reg, remote, Run(reg, remote, cs[..|cs| - 1]), cs[|cs| - 1])
  }

  /** Once a loop has failed, the containers after the failure change nothing. */
  lemma {:induction false} RunFailedStays(reg: Registry, remote: Remote, cs: seq<Container>, i: nat)
    requires i <= |cs| && Run(reg, remote, cs[..i]).failed
    ensures Run(reg, remote, cs) == Run(reg, remote, cs[..i])
    decreases |cs|
  {
    if i < |cs| {
      assert cs[..|cs| - 1][..i] == cs[..i];
      RunFailedStays(reg, remote, cs[..|cs| - 1], i);
    } else {
      assert cs[..i] == cs;
    }
  }

  /** Running one container further is one more step. */
  lemma RunPrefix(reg: Registry, remote: Remote, cs: seq<Container>, i: nat)
    requires i < |cs|
    ensures Run(reg, remote, cs[..i + 1]) == Step(reg, remote, Run(reg, remote, cs[..i]), cs[i])
  {
    assert cs[..i + 1][..i] == cs[..i];
  }

  /** `FailsOn` as a function value, for the generic sequence facts. */
  function Failing(reg: Registry, remote: Remote): Container -> bool
  {
    c => FailsOn(reg, remote, c)
  }

  /** `StepCalls` as a function value. */
  function Calling(reg: Registry, remote: Remote): Container -> seq<Call>
  {
    c => StepCalls(reg, remote, c)
  }

  /** `NeedsBackup` as a function value. */
  function Needing(reg: Registry): Container -> bool
  {
    c => NeedsBackup(reg, c)
  }

  /** Whether some container's backup fails. */
  predicate Aborts(reg: Registry, remote: Remote, cs: seq<Container>)
  {
    Any(Failing(reg, remote), cs)
  }

  /** Whether some container's image needs a backup. */
  predicate AnyNeedsBackup(reg: Registry, cs: seq<Container>)
  {
    Any(Needing(reg), cs)
  }

  /** Whether every container's image is already in the backup registry. */
  predicate AllBackedUp(reg: Registry, cs: seq<Container>)
  {
    forall c :: c in cs ==> !NeedsBackup(reg, c)
  }

  /** `after` is `before` with its image backed up when it needs it. */
  predicate BackedUpOne(reg: Registry, before: Container, after: Container)
  {
    after.name == before.name &&
    (NeedsBackup(reg, before) ==> after.image == BackupName(reg, before.image)) &&
    (!NeedsBackup(reg, before) ==> after == before)
  }

  /**
    `after` is `before` with every image that needs a backup replaced by its
    backup name: same length, same names, and images already in the backup
    registry left as they were.
   */
  predicate BackedUpFrom(reg: Registry, before: seq<Container>, after: seq<Container>)
  {
    |after| == |before| &&
    forall i :: 0 <= i < |before| ==> BackedUpOne(reg, before[i], after[i])
  }

  /**
    The registry calls of a container loop, defined from the front: each
    container's calls in index order, up to and including the first failure.
   */
  function Trace(reg: Registry, remote: Remote, cs: seq<Container>): seq<Call>
  {
    Until(Calling(reg, remote), Failing(reg, remote), cs)
  }


  /**
    The calls of two loops run one after the other: those of the first, and
    then, unless the first failed, those of the second.
   */
  lemma TraceAppend(reg: Registry, remote: Remote, xs: seq<Container>, ys: seq<Container>)
    ensures Trace(reg, remote, xs + ys) ==
      Trace(reg, remote, xs) + (if Aborts(reg, remote, xs) then [] else Trace(reg, remote, ys))
  {
    UntilAppend(Calling(reg, remote), Failing(reg, remote), xs, ys);
  }

  /** The calls of a list are those of all but its last container, then the last one's unless a failure came first. */
  lemma TraceSnoc(reg: Registry, remote: Remote, cs: seq<Container>)
    requires cs != []
    ensures var init := cs[..|cs| - 1];
      Trace(reg, remote, cs) ==
        Trace(reg, remote, init) + (if Aborts(reg, remote, init) then [] else StepCalls(reg, remote, cs[|cs| - 1]))
    ensures var init := cs[..|cs| - 1];
      Aborts(reg, remote, cs) <==> Aborts(reg, remote, init) || FailsOn(reg, remote, cs[|cs| - 1])
  {
    UntilSnoc(Calling(reg, remote), Failing(reg, remote), cs);
  }

  /**
    A loop fails exactly when some container's backup fails, and its
    registry calls are those of `Trace`: every container in index order, up
    to and including the first failure, and nothing after it.
   */
  lemma {:induction false} RunTrace(reg: Registry, remote: Remote, cs: seq<Container>)
    ensures Run(reg, remote, cs).failed <==> Aborts(reg, remote, cs)
    ensures Run(reg, remote, cs).calls == Trace(reg, remote, cs)
    decreases |cs|
  {
    if cs != [] {
      RunTrace(reg, remote, cs[..|cs| - 1]);
      TraceSnoc(reg, remote, cs);
    }
  }

  /**
    A loop sets `objectChanged` exactly when some image needs a backup, and
    has always set it when it failed.
   */
  lemma {:induction false} RunChanged(reg: Registry, remote: Remote, cs: seq<Container>)
    ensures Run(reg, remote, cs).failed ==> Run(reg, remote, cs).changed
    ensures Run(reg, remote, cs).changed <==> AnyNeedsBackup(reg, cs)
    decreases |cs|
  {
    if cs != [] {
      var init := cs[..|cs| - 1];
      var c := cs[|cs| - 1];
      RunChanged(reg, remote, init);
      SnocSplit(cs);
      AnyAppend(Needing(reg), init, [c]);
      assert AnyNeedsBackup(reg, [c]) <==> NeedsBackup(reg, c) by {
        if NeedsBackup(reg, c) {
          assert NeedsBackup(reg, [c][0]);
        }
      }
    }
  }

  /** A step that does not fail appends the container, backed up when it needs it. */
  lemma StepShape(reg: Registry, remote: Remote, p: Progress, c: Container)
    requires !Step(reg, remote, p, c).failed
    ensures !p.failed
    ensures |Step(reg, remote, p, c).out| == |p.out| + 1
    ensures Step(reg, remote, p, c).out[..|p.out|] == p.out
    ensures BackedUpOne(reg, c, Step(reg, remote, p, c).out[|p.out|])
  {
  }

  /** Backed-up lists grow one matching pair at a time. */
  lemma BackedUpFromSnoc(reg: Registry, cs: seq<Container>, after: seq<Container>)
    requires cs != [] && |after| == |cs|
    requires BackedUpFrom(reg, cs[..|cs| - 1], after[..|cs| - 1])
    requires BackedUpOne(reg, cs[|cs| - 1], after[|cs| - 1])
    ensures BackedUpFrom(reg, cs, after)
  {
    var n := |cs| - 1;
    forall i | 0 <= i < n
      ensures BackedUpOne(reg, cs[i], after[i])
    {
      assert cs[..n][i] == cs[i] && after[..n][i] == after[i];
    }
  }

  /**
    A loop that does not fail keeps every container and its name, leaves
    images already in the backup registry alone and points every other
    container at its backup name.
   */
  lemma {:induction false} RunShape(reg: Registry, remote: Remote, cs: seq<Container>)
    ensures !Run(reg, remote, cs).failed ==> BackedUpFrom(reg, cs, Run(reg, remote, cs).out)
    decreases |cs|
  {
    if cs != [] && !Run(reg, remote, cs).failed {
      var q := Run(reg, remote, cs[..|cs| - 1]);
      StepShape(reg, remote, q, cs[|cs| - 1]);
      RunShape(reg, remote, cs[..|cs| - 1]);
      BackedUpFromSnoc(reg, cs, Run(reg, remote, cs).out);
    }
  }

  /** A loop over images all in the backup registry makes no call and changes nothing. */
  lemma {:induction false} RunQuiet(reg: Registry, remote: Remote, cs: seq<Container>)
    requires AllBackedUp(reg, cs)
    ensures Run(reg, remote, cs) == Progress(cs, false, false, [])
    decreases |cs|
  {
    if cs != [] {
      var init := cs[..|cs| - 1];
      assert forall c :: c in init ==> c in cs;
      RunQuiet(reg, remote, init);
      SnocSplit(cs);
    }
  }

  /**
    With a backup registry name free of `/` and `:`, every image of a
    backed-up container list is in the backup registry.
   */
  lemma BackedUpFromIsBackedUp(reg: Registry, before: seq<Container>, after: seq<Container>)
    requires '/' !in reg.backupRegistry && ':' !in reg.backupRegistry
    requires BackedUpFrom(reg, before, after)
    ensures AllBackedUp(reg, after)
  {
    forall c | c in after
      ensures !NeedsBackup(reg, c)
    {
      var i :| 0 <= i < |after| && after[i] == c;
      if NeedsBackup(reg, before[i]) {
        BackupNameRoundTrip(reg, before[i].image);
      }
    }
  }

  /**
    The container loop, step by step as the source writes it: the image at
    index `i` is replaced in place by its backup name, and the first failed
    backup returns at once.
   */
  method BackupContainers(reg: Registry, remote: Remote, cs: seq<Container>)
    returns (updated: seq<Container>, changed: bool, failed: bool, calls: seq<Call>)
    ensures var p := Run(reg, remote, cs);
      failed == p.failed && changed == p.changed && calls == p.calls && (!failed ==> updated == p.out)
  {
    updated := cs;
    changed := false;
    failed := false;
    calls := [];
    var i := 0;
    while i < |updated|
      invariant 0 <= i <= |cs| == |updated|
      invariant forall j :: i <= j < |cs| ==> updated[j] == cs[j]
      invariant Run(reg, remote, cs[..i]) == Progress(updated[..i], changed, false, calls)
    {
      var c := updated[i];
      RunPrefix(reg, remote, cs, i);
      if !IsImageFromBackUp(reg, c.image) {
        changed := true;
        var name, err, made := AddImageToBackUp(reg, remote, c.image);
        calls := calls + made;
        if err.Some? {
          failed := true;
          RunFailedStays(reg, remote, cs, i + 1);
          return;
        }
        PrefixSet(updated, i, c.(image := name));
        updated := updated[i := c.(image := name)];
      } else {
        PrefixExtend(updated, i);
      }
      i := i + 1;
    }
    assert cs[..i] == cs;
    assert updated[..i] == updated;
  }

  /**
    The specification of one per-kind reconcile (`reconcileDeployment`,
    `reconcileDaemonSet`): fetch; a missing object is success and any other
    fetch error is returned; run the init-container loop, then the container
    loop; a failed backup ends the pass with no error and no write; an
    unchanged object is not written; a failed write is returned as an error.
   */
  function Reconciled(kind: Kind, reg: Registry, cluster: Cluster, remote: Remote, request: Request): Outcome
  {
    match cluster.get(kind, request)
    case NotFound => Outcome(None, Effects(true, [], None))
    case FetchFailed(e) => Outcome(Some(CouldNotFetch(e)), Effects(true, [], None))
    case Found(obj) =>
      var inits := Run(reg, remote, obj.initContainers);
      if inits.failed then Outcome(None, Effects(true, inits.calls, None))
      else
        var main := Run(reg, remote, obj.containers);
        var calls := inits.calls + main.calls;
        if main.failed || !(inits.changed || main.changed) then Outcome(None, Effects(true, calls, None))
        else
          var written := Workload(inits.out, main.out);
          match cluster.update(kind, request, written)
          case None => Outcome(None, Effects(true, calls, Some(written)))
          case Some(e) => Outcome(Some(CouldNotWrite(kind, e)), Effects(true, calls, Some(written)))
  }

  /** The containers of both lists, init containers first, in the order the pass visits them. */
  function AllContainers(w: Workload): seq<Container>
  {
    w.initContainers + w.containers
  }

  /**
    A fetched object's registry calls are those of one pass over all its
    containers, init containers first, each in index order, stopping at the
    first failed backup.
   */
  lemma ReconciledCallsInOrder(kind: Kind, reg: Registry, cluster: Cluster, remote: Remote, request: Request)
    requires cluster.get(kind, request).Found?
    ensures var o := Reconciled(kind, reg, cluster, remote, request);
      o.effects.fetched &&
      o.effects.registryCalls == Trace(reg, remote, AllContainers(cluster.get(kind, request).obj))
  {
    var obj := cluster.get(kind, request).obj;
    RunTrace(reg, remote, obj.initContainers);
    RunTrace(reg, remote, obj.containers);
    TraceAppend(reg, remote, obj.initContainers, obj.containers);
  }

  /**
    All or nothing: the object is written exactly when it was fetched, no
    backup failed and at least one image needed a backup; the object written
    has every such image replaced by its backup name and nothing else changed.
   */
  lemma ReconciledWrites(kind: Kind, reg: Registry, cluster: Cluster, remote: Remote, request: Request)
    ensures var o := Reconciled(kind, reg, cluster, remote, request); var f := cluster.get(kind, request);
      o.effects.written.Some? <==>
        f.Found? && !Aborts(reg, remote, AllContainers(f.obj)) && AnyNeedsBackup(reg, AllContainers(f.obj))
    ensures var o := Reconciled(kind, reg, cluster, remote, request); var f := cluster.get(kind, request);
      o.effects.written.Some? ==>
        f.Found? &&
        BackedUpFrom(reg, f.obj.initContainers, o.effects.written.value.initContainers) &&
        BackedUpFrom(reg, f.obj.containers, o.effects.written.value.containers)
  {
    var f := cluster.get(kind, request);
    if f.Found? {
      var obj := f.obj;
      var inits := Run(reg, remote, obj.initContainers);
      var main := Run(reg, remote, obj.containers);
      assert inits.failed || main.failed <==> Aborts(reg, remote, AllContainers(obj)) by {
        RunTrace(reg, remote, obj.initContainers);
        RunTrace(reg, remote, obj.containers);
        AnyAppend(Failing(reg, remote), obj.initContainers, obj.containers);
      }
      assert inits.changed || main.changed <==> AnyNeedsBackup(reg, AllContainers(obj)) by {
        RunChanged(reg, remote, obj.initContainers);
        RunChanged(reg, remote, obj.containers);
        AnyAppend(Needing(reg), obj.initContainers, obj.containers);
      }
      RunShape(reg, remote, obj.initContainers);
      RunShape(reg, remote, obj.containers);
    }
  }

  /**
    The error returned: a failed fetch, or a failed write of the updated
    object, and nothing else; a missing object is no error, and neither a
    missing object nor a failed fetch leads to a registry call or a write.
   */
  lemma ReconciledErrors(kind: Kind, reg: Registry, cluster: Cluster, remote: Remote, request: Request)
    ensures var o := Reconciled(kind, reg, cluster, remote, request); var f := cluster.get(kind, request);
      o.err.Some? <==>
        f.FetchFailed? || (o.effects.written.Some? && cluster.update(kind, request, o.effects.written.value).Some?)
    ensures var o := Reconciled(kind, reg, cluster, remote, request); var f := cluster.get(kind, request);
      !f.Found? ==> o.effects.registryCalls == [] && o.effects.written.None? && (o.err.None? <==> f.NotFound?)
  {
  }

  /**
    Idempotence: when every image is already in the backup registry the
    pass makes no registry call, writes nothing and returns no error.
   */
  lemma ReconciledQuiet(kind: Kind, reg: Registry, cluster: Cluster, remote: Remote, request: Request)
    requires cluster.get(kind, request).Found?
    requires AllBackedUp(reg, AllContainers(cluster.get(kind, request).obj))
    ensures Reconciled(kind, reg, cluster, remote, request) == Outcome(None, Effects(true, [], None))
  {
    var obj := cluster.get(kind, request).obj;
    RunQuiet(reg, remote, obj.initContainers);
    RunQuiet(reg, remote, obj.containers);
  }

  /**
    A second pass over the object a pass wrote does nothing, provided the
    backup registry name holds neither `/` nor `:`.
   */
  lemma SecondPassIsQuiet(kind: Kind, reg: Registry, cluster: Cluster, cluster': Cluster, remote: Remote, request: Request)
    requires '/' !in reg.backupRegistry && ':' !in reg.backupRegistry
    requires Reconciled(kind, reg, cluster, remote, request).effects.written.Some?
    requires cluster'.get(kind, request) == Found(Reconciled(kind, reg, cluster, remote, request).effects.written.value)
    ensures Reconciled(kind, reg, cluster', remote, request) == Outcome(None, Effects(true, [], None))
  {
    var w := Reconciled(kind, reg, cluster, remote, request).effects.written.value;
    ReconciledWrites(kind, reg, cluster, remote, request);
    var obj := cluster.get(kind, request).obj;
    BackedUpFromIsBackedUp(reg, obj.initContainers, w.initContainers);
    BackedUpFromIsBackedUp(reg, obj.containers, w.containers);
    ReconciledQuiet(kind, reg, cluster', remote, request);
  }

  /**
    With `/` or `:` in the backup registry name nothing ever counts as
    backed up, so every pass over a non-empty object whose backups succeed
    copies every image again and writes the object again.
   */
  lemma SeparatorRegistryRewritesEveryPass(kind: Kind, reg: Registry, cluster: Cluster, remote: Remote, request: Request)
    requires '/' in reg.backupRegistry || ':' in reg.backupRegistry
    requires cluster.get(kind, request).Found?
    requires AllContainers(cluster.get(kind, request).obj) != []
    requires !Aborts(reg, remote, AllContainers(cluster.get(kind, request).obj))
    ensures Reconciled(kind, reg, cluster, remote, request).effects.written.Some?
  {
    var cs := AllContainers(cluster.get(kind, request).obj);
    SeparatorInBackupNeverMatches(reg, cs[0].image);
    assert NeedsBackup(reg, cs[0]);
    ReconciledWrites(kind, reg, cluster, remote, request);
  }

  /** The per-kind reconcile, step by step: the body `reconcileDeployment` and `reconcileDaemonSet` share. */
  method ReconcileKind(kind: Kind, reg: Registry, cluster: Cluster, remote: Remote, request: Request)
    returns (o: Outcome)
    ensures o == Reconciled(kind, reg, cluster, remote, request)
  {
    var fetched := cluster.get(kind, request);
    if fetched.NotFound? {
      return Outcome(None, Effects(true, [], None));
    }
    if fetched.FetchFailed? {
      return Outcome(Some(CouldNotFetch(fetched.reason)), Effects(true, [], None));
    }
    var obj := fetched.obj;
    var objectChanged := false;
    var initContainers, changed, failed, calls := BackupContainers(reg, remote, obj.initContainers);
    objectChanged := objectChanged || changed;
    if failed {
      return Outcome(None, Effects(true, calls, None));
    }
    var containers, changed', failed', calls' := BackupContainers(reg, remote, obj.containers);
    objectChanged := objectChanged || changed';
    calls := calls + calls';
    if failed' {
      return Outcome(None, Effects(true, calls, None));
    }
    if !objectChanged {
      return Outcome(None, Effects(true, calls, None));
    }
    obj := Workload(initContainers, containers);
    var updateErr := cluster.update(kind, request, obj);
    if updateErr.Some? {
      return Outcome(Some(CouldNotWrite(kind, updateErr.value)), Effects(true, calls, Some(obj)));
    }
    return Outcome(None, Effects(true, calls, Some(obj)));
  }

  /**
    `Reconcile`: the `kube-system` namespace is ignored, the type name picks
    the per-kind reconcile, and an unsupported type does nothing and returns
    no error.
   */
  method Reconcile(r: ReconcileBackup, remote: Remote, request: Request) returns (o: Outcome)
    ensures request.namespace == KubeSystem ==> o == Outcome(None, Idle)
    ensures request.namespace != KubeSystem && KindOf(r.k8sType).None? ==> o == Outcome(None, Idle)
    ensures request.namespace != KubeSystem && KindOf(r.k8sType).Some? ==>
      o == Reconciled(KindOf(r.k8sType).value, r.registry, r.client, remote, request)
  {
    if request.namespace == KubeSystem {
      return Outcome(None, Idle);
    }
    match KindOf(r.k8sType)
    case Some(kind) =>
      o := ReconcileKind(kind, r.registry, r.client, remote, request);
    case None =>
      o := Outcome(None, Idle);
  }
}
