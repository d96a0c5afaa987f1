/** The three lifecycle commands (start the latest deployment, retry the current one,
    cancel the in-flight ones), each a decision made from already-fetched data followed
    by the writes that realise it through the client. */
module DeployCommands {
  import opened DeployApi
  import opened DeployClient

  // ----- start-latest -----

  /** Start-latest's rule, given the lookup of the deployment at the config's current
      version: proceed (answering the config to write) when there is none or it is
      terminal; otherwise reject without writing. */
  function StartLatestPlan(config: Config, current: Lookup): (r: Result<Config>)
    ensures r.Ok? <==> current.NotFound? || (current.Found? && IsTerminal(current.deployment.status))
    ensures r.Ok? ==> r.value.name == config.name && r.value.latestVersion == config.latestVersion + 1
    ensures current.LookupError? ==> r == Err(StoreFailure)
    ensures current.Found? && IsActive(current.deployment.status) ==>
              r == Err(InProgress(config.latestVersion, current.deployment.status))
  {
    match current
    case LookupError => Err(StoreFailure)
    case NotFound => Ok(config.(latestVersion := config.latestVersion + 1))
    case Found(d) =>
      if IsTerminal(d.status) then Ok(config.(latestVersion := config.latestVersion + 1))
      else Err(InProgress(config.latestVersion, d.status))
  }

  /** Start a new deployment of `config`: look up its current deployment, and unless that
      one is still active (or the lookup failed) write the config with its version
      advanced by one. No deployment record is ever written. */
  method StartLatest(store: Store, config: Config) returns (r: Result<Config>)
    requires store.Valid()
    modifies store
    ensures store.Valid()
    ensures store.lookupCalls == old(store.lookupCalls) + 1 && store.listCalls == old(store.listCalls)
    ensures store.deploymentWrites == old(store.deploymentWrites)
    ensures store.deployments == old(store.deployments)
    ensures var plan := StartLatestPlan(config, old(store.Observe(LatestId(config))));
            && (plan.Err? ==> r == plan && store.configWrites == old(store.configWrites)
                              && store.config == old(store.config))
            && (plan.Ok? ==> store.configWrites == old(store.configWrites) + [plan.value]
                             && (store.configWritesFail ==> r == Err(StoreFailure) && store.config == old(store.config))
                             && (!store.configWritesFail ==> r == plan && store.config == plan.value))
    ensures r.Ok? ==> store.config.latestVersion == config.latestVersion + 1
  {
    var current := store.GetDeployment(LatestId(config));
    var plan := StartLatestPlan(config, current);
    if plan.Err? {
      return plan;
    }
    r := store.UpdateDeploymentConfig(plan.value);
  }

  // ----- retry -----

  /** Retry's rule, given the lookup of the deployment at the config's current version:
      only a Failed deployment may be retried, and it is rewritten in place to New, runnable
      again, so without a cancellation request left over from an earlier cancel. */
  function RetryPlan(config: Config, current: Lookup): (r: Result<Deployment>)
    ensures r.Ok? <==> current.Found? && current.deployment.status == Failed
    ensures r.Ok? ==> r.value.Id() == current.deployment.Id() && r.value.status == New
                      && !r.value.cancelRequested
    ensures current.LookupError? ==> r == Err(StoreFailure)
    ensures current.NotFound? ==> r == Err(NoDeployment(config.latestVersion))
    ensures current.Found? && current.deployment.status != Failed ==>
              r == Err(NotRetryable(config.latestVersion, current.deployment.status))
  {
    match current
    case LookupError => Err(StoreFailure)
    case NotFound => Err(NoDeployment(config.latestVersion))
    case Found(d) =>
      if d.status == Failed then Ok(d.(status := New, cancelRequested := false))
      else Err(NotRetryable(config.latestVersion, d.status))
  }

  /** Retry the current deployment of `config`: when it is Failed, write the same record
      back with status New. The config, and so its version, is never written. */
  method Retry(store: Store, config: Config) returns (r: Result<Deployment>)
    requires store.Valid()
    modifies store
    ensures store.Valid()
    ensures store.lookupCalls == old(store.lookupCalls) + 1 && store.listCalls == old(store.listCalls)
    ensures store.configWrites == old(store.configWrites) && store.config == old(store.config)
    ensures var plan := RetryPlan(config, old(store.Observe(LatestId(config))));
            && (plan.Err? ==> r == plan && store.deploymentWrites == old(store.deploymentWrites)
                              && store.deployments == old(store.deployments))
            && (plan.Ok? ==> store.deploymentWrites == old(store.deploymentWrites) + [plan.value]
                             && (plan.value.Id() in store.rejected ==>
                                   r == Err(StoreFailure) && store.deployments == old(store.deployments))
                             && (plan.value.Id() !in store.rejected ==>
                                   r == plan && store.deployments == Replace(old(store.deployments), plan.value)))
  {
    var current := store.GetDeployment(LatestId(config));
    var plan := RetryPlan(config, current);
    if plan.Err? {
      return plan;
    }
    r := store.UpdateDeployment(plan.value);
  }

  // ----- cancel -----

  /** The record cancel writes for an active deployment: the same record, marked. */
  function Cancelled(d: Deployment): Deployment {
    d.(cancelRequested := true)
  }

  /** The update calls cancel makes for `items`, in order: one per active deployment. */
  function CancelWrites(items: seq<Deployment>): (ws: seq<Deployment>)
    ensures |ws| <= |items|
    decreases |items|
  {
    if items == [] then []
    else
      var last := items[|items| - 1];
      CancelWrites(items[..|items| - 1]) + (if IsActive(last.status) then [Cancelled(last)] else [])
  }

  /** The listed deployments cancel leaves alone. */
  function Untouched(items: seq<Deployment>): seq<Deployment>
    decreases |items|
  {
    if items == [] then []
    else
      var last := items[|items| - 1];
      Untouched(items[..|items| - 1]) + (if IsTerminal(last.status) then [last] else [])
  }

  /** The versions of `ds`, in order. */
  function Versions(ds: seq<Deployment>): (vs: seq<nat>)
    ensures |vs| == |ds|
    decreases |ds|
  {
    if ds == [] then [] else Versions(ds[..|ds| - 1]) + [ds[|ds| - 1].version]
  }

  /** The versions of the update calls in `ws` that the client refuses, in order. */
  function FailedVersions(ws: seq<Deployment>, rejected: set<DeploymentId>): seq<nat>
    decreases |ws|
  {
    if ws == [] then []
    else
      var last := ws[|ws| - 1];
      FailedVersions(ws[..|ws| - 1], rejected) + (if last.Id() in rejected then [last.version] else [])
  }

  /** Cancel's outcome after the writes `ws`: success unless some write was refused. */
  function CancelOutcome(ws: seq<Deployment>, rejected: set<DeploymentId>): Result<()> {
    var failed := FailedVersions(ws, rejected);
    if failed == [] then Ok(()) else Err(CancelFailed(failed))
  }

  /** Cancel reports success exactly when the client accepted every write it made. */
  lemma {:induction false} CancelOutcomeOkIff(ws: seq<Deployment>, rejected: set<DeploymentId>)
    ensures CancelOutcome(ws, rejected).Ok? <==> forall w :: w in ws ==> w.Id() !in rejected
    ensures CancelOutcome(ws, rejected).Err? ==>
              forall v :: v in CancelOutcome(ws, rejected).error.versions ==>
                exists w :: w in ws && w.Id() in rejected && w.version == v
    decreases |ws|
  {
    if ws != [] {
      var init := ws[..|ws| - 1];
      CancelOutcomeOkIff(init, rejected);
      assert ws == init + [ws[|ws| - 1]];
    }
  }

  /** One more update call, as the definitions of the store's new state and of the
      failure report take it. */
  lemma SnocSteps(ds: seq<Deployment>, ws: seq<Deployment>, w: Deployment, rejected: set<DeploymentId>)
    ensures AfterUpdates(ds, ws + [w], rejected) ==
              if w.Id() in rejected then AfterUpdates(ds, ws, rejected) else Replace(AfterUpdates(ds, ws, rejected), w)
    ensures FailedVersions(ws + [w], rejected) ==
              FailedVersions(ws, rejected) + (if w.Id() in rejected then [w.version] else [])
  {
    assert (ws + [w])[..|ws|] == ws;
  }

  /** Regrouping a concatenation; cancel's loop states it explicitly to keep its
      verification condition small and stable. */
  lemma AppendAssoc<T>(a: seq<T>, b: seq<T>, c: seq<T>)
    ensures (a + b) + c == a + (b + c)
  {
  }

  /** One step of cancel's scan, as the loop takes it. */
  lemma CancelStep(items: seq<Deployment>, i: nat)
    requires i < |items|
    ensures CancelWrites(items[..i + 1]) ==
              CancelWrites(items[..i]) + (if IsActive(items[i].status) then [Cancelled(items[i])] else [])
  {
    assert items[..i + 1][..i] == items[..i];
  }

  /** Cancel every in-flight deployment of `config`: list all its deployments, of every
      version, and write the cancellation marker onto each active one. A refused write
      does not stop the scan; the versions that could not be cancelled are reported. */
  method Cancel(store: Store, config: Config) returns (r: Result<()>)
    requires store.Valid()
    modifies store
    ensures store.Valid()
    ensures store.lookupCalls == old(store.lookupCalls) && store.listCalls == old(store.listCalls) + 1
    ensures store.configWrites == old(store.configWrites) && store.config == old(store.config)
    ensures store.readsFail ==> r == Err(StoreFailure) && store.deploymentWrites == old(store.deploymentWrites)
                                && store.deployments == old(store.deployments)
    ensures !store.readsFail ==>
              var ws := CancelWrites(OwnedBy(old(store.deployments), config.name));
              && store.deploymentWrites == old(store.deploymentWrites) + ws
              && store.deployments == AfterUpdates(old(store.deployments), ws, store.rejected)
              && r == CancelOutcome(ws, store.rejected)
  {
    var listed := store.ListDeploymentsForConfig(config.name);
    if listed.Err? {
      return Err(listed.error);
    }
    var items := listed.value;
    ghost var ds0, log0 := store.deployments, store.deploymentWrites;
    var failed: seq<nat> := [];
    ghost var done: seq<Deployment> := [];
    var i := 0;
    while i < |items|
      invariant 0 <= i <= |items|
      invariant done == CancelWrites(items[..i])
      invariant store.lookupCalls == old(store.lookupCalls) && store.listCalls == old(store.listCalls) + 1
      invariant store.configWrites == old(store.configWrites) && store.config == old(store.config)
      invariant store.deploymentWrites == log0 + done
      invariant store.deployments == AfterUpdates(ds0, done, store.rejected)
      invariant failed == FailedVersions(done, store.rejected)
    {
      var d := items[i];
      CancelStep(items, i);
      if IsActive(d.status) {
        var w := Cancelled(d);
        SnocSteps(ds0, done, w, store.rejected);
        AppendAssoc(log0, done, [w]);
        var written := store.UpdateDeployment(w);
        if written.Err? {
          failed := failed + [d.version];
        }
        done := done + [w];
      }
      i := i + 1;
    }
    assert items[..i] == items;
    AfterUpdatesKeepsUniqueIds(ds0, done, store.rejected);
    r := if failed == [] then Ok(()) else Err(CancelFailed(failed));
  }

  // ----- what cancel writes -----

  /** A write is made for a deployment exactly when a listed deployment is active, and it
      is that deployment, marked. */
  lemma {:induction false} CancelWritesExactly(items: seq<Deployment>, x: Deployment)
    ensures x in CancelWrites(items) <==>
              exists k :: 0 <= k < |items| && IsActive(items[k].status) && x == Cancelled(items[k])
    decreases |items|
  {
    if items != [] {
      var n := |items| - 1;
      var init := items[..n];
      CancelWritesExactly(init, x);
      if x in CancelWrites(items) && x !in CancelWrites(init) {
        assert IsActive(items[n].status) && x == Cancelled(items[n]);
      }
      if exists k :: 0 <= k < |items| && IsActive(items[k].status) && x == Cancelled(items[k]) {
        var k :| 0 <= k < |items| && IsActive(items[k].status) && x == Cancelled(items[k]);
        if k < n {
          assert init[k] == items[k];
        }
      }
    }
  }

  /** The listed versions split exactly into those cancel writes and those it leaves alone. */
  lemma {:induction false} CancelPartitionsVersions(items: seq<Deployment>)
    ensures multiset(Versions(items)) ==
              multiset(Versions(CancelWrites(items))) + multiset(Versions(Untouched(items)))
    decreases |items|
  {
    if items != [] {
      var n := |items| - 1;
      CancelPartitionsVersions(items[..n]);
      CancelWritesVersionsStep(items);
      UntouchedVersionsStep(items);
    }
  }

  lemma CancelWritesVersionsStep(items: seq<Deployment>)
    requires items != []
    ensures var last := items[|items| - 1];
            multiset(Versions(CancelWrites(items))) ==
              multiset(Versions(CancelWrites(items[..|items| - 1])))
                + (if IsActive(last.status) then multiset{last.version} else multiset{})
  {
    var last := items[|items| - 1];
    var cw := if IsActive(last.status) then [Cancelled(last)] else [];
    VersionsAppend(CancelWrites(items[..|items| - 1]), cw);
    VersionsAppend([], cw);
  }

  lemma UntouchedVersionsStep(items: seq<Deployment>)
    requires items != []
    ensures var last := items[|items| - 1];
            multiset(Versions(Untouched(items))) ==
              multiset(Versions(Untouched(items[..|items| - 1])))
                + (if IsTerminal(last.status) then multiset{last.version} else multiset{})
  {
    var last := items[|items| - 1];
    var ut := if IsTerminal(last.status) then [last] else [];
    VersionsAppend(Untouched(items[..|items| - 1]), ut);
    VersionsAppend([], ut);
  }

  /** What cancel leaves alone is all terminal. */
  lemma {:induction false} UntouchedAreTerminal(items: seq<Deployment>)
    ensures forall d :: d in Untouched(items) ==> IsTerminal(d.status)
    decreases |items|
  {
    if items != [] {
      UntouchedAreTerminal(items[..|items| - 1]);
    }
  }

  lemma {:induction false} VersionsAppend(a: seq<Deployment>, b: seq<Deployment>)
    ensures Versions(a + b) == Versions(a) + Versions(b)
    decreases |b|
  {
    if b == [] {
      assert a + b == a;
    } else {
      var n := |b| - 1;
      assert (a + b)[..|a + b| - 1] == a + b[..n];
      assert (a + b)[|a + b| - 1] == b[n];
      VersionsAppend(a, b[..n]);
    }
  }

  /** The versions cancel writes are exactly the versions of the active listed deployments:
      each version occurs as often among the writes as among the active listed ones. */
  lemma {:induction false} CancelVersionsAreActiveVersions(items: seq<Deployment>, v: nat)
    ensures multiset(Versions(CancelWrites(items)))[v] == ActiveCount(items, v)
    decreases |items|
  {
    if items != [] {
      var n := |items| - 1;
      var init := items[..n];
      var last := items[n];
      CancelVersionsAreActiveVersions(init, v);
      CancelWritesVersionsStep(items);
    }
  }

  /** How many listed deployments are at version `v` and in New, Pending or Running. */
  function ActiveCount(items: seq<Deployment>, v: nat): nat
    decreases |items|
  {
    if items == [] then 0
    else
      var last := items[|items| - 1];
      ActiveCount(items[..|items| - 1], v)
        + (if last.version == v && last.status in {New, Pending, Running} then 1 else 0)
  }

  /** Cancel writes nothing exactly when no listed deployment is active. */
  lemma {:induction false} CancelWritesNothingIff(items: seq<Deployment>)
    ensures CancelWrites(items) == [] <==> forall k :: 0 <= k < |items| ==> IsTerminal(items[k].status)
    decreases |items|
  {
    if items != [] {
      var n := |items| - 1;
      CancelWritesNothingIff(items[..n]);
      assert forall k :: 0 <= k < n ==> items[..n][k] == items[k];
    }
  }

  // ----- what cancel does to the store -----

  /** The identities that the update calls `ws` write to. */
  function WrittenIds(ws: seq<Deployment>): set<DeploymentId> {
    set w | w in ws :: w.Id()
  }

  /** `w` is a marked copy of one of the records `ds`. */
  predicate MarksRecord(ds: seq<Deployment>, w: Deployment) {
    exists j :: 0 <= j < |ds| && w == Cancelled(ds[j])
  }

  /** `now` is `ds` with exactly the records whose identity is in `marked` carrying the marker. */
  predicate MarkedAt(ds: seq<Deployment>, now: seq<Deployment>, marked: set<DeploymentId>) {
    |now| == |ds| &&
    forall k :: 0 <= k < |ds| ==> now[k] == if ds[k].Id() in marked then Cancelled(ds[k]) else ds[k]
  }

  /** One accepted marked write adds its identity to the marked ones. */
  lemma ReplaceMarked(ds: seq<Deployment>, now: seq<Deployment>, marked: set<DeploymentId>, w: Deployment)
    requires UniqueIds(ds) && MarkedAt(ds, now, marked) && MarksRecord(ds, w)
    ensures MarkedAt(ds, Replace(now, w), marked + {w.Id()})
  {
    var j :| 0 <= j < |ds| && w == Cancelled(ds[j]);
    forall k | 0 <= k < |ds| && w.Id() == ds[k].Id()
      ensures j == k
    {
    }
  }

  /** The store after accepted updates by marked copies of its own records: each record is
      marked exactly when some accepted write carries its identity. */
  lemma {:induction false} AfterMarkedUpdates(ds: seq<Deployment>, ws: seq<Deployment>, rejected: set<DeploymentId>)
    requires UniqueIds(ds)
    requires forall w :: w in ws ==> MarksRecord(ds, w)
    ensures MarkedAt(ds, AfterUpdates(ds, ws, rejected), WrittenIds(ws) - rejected)
    decreases |ws|
  {
    if ws == [] {
      assert WrittenIds(ws) == {};
    } else {
      var n := |ws| - 1;
      var init := ws[..n];
      var w := ws[n];
      assert ws == init + [w];
      assert WrittenIds(ws) == WrittenIds(init) + {w.Id()};
      assert forall x :: x in init ==> x in ws;
      AfterMarkedUpdates(ds, init, rejected);
      if w.Id() in rejected {
        assert WrittenIds(ws) - rejected == WrittenIds(init) - rejected;
      } else {
        ReplaceMarked(ds, AfterUpdates(ds, init, rejected), WrittenIds(init) - rejected, w);
        assert WrittenIds(ws) - rejected == (WrittenIds(init) - rejected) + {w.Id()};
      }
    }
  }

  /** Every write cancel makes is a marked copy of one of the store's records. */
  lemma CancelWritesAreMarkedRecords(ds: seq<Deployment>, name: string)
    ensures forall w :: w in CancelWrites(OwnedBy(ds, name)) ==> MarksRecord(ds, w)
  {
    var items := OwnedBy(ds, name);
    forall w | w in CancelWrites(items)
      ensures MarksRecord(ds, w)
    {
      CancelWritesExactly(items, w);
      var i :| 0 <= i < |items| && IsActive(items[i].status) && w == Cancelled(items[i]);
      assert items[i] in ds;
    }
  }

  /** Cancel writes to a record's identity exactly when the record is owned and active. */
  lemma CancelTargets(ds: seq<Deployment>, name: string, k: nat)
    requires UniqueIds(ds) && k < |ds|
    ensures ds[k].Id() in WrittenIds(CancelWrites(OwnedBy(ds, name))) <==>
              ds[k].configName == name && IsActive(ds[k].status)
  {
    if ds[k].Id() in WrittenIds(CancelWrites(OwnedBy(ds, name))) {
      CancelTargetsOnlyOwnedActive(ds, name, k);
    }
    if ds[k].configName == name && IsActive(ds[k].status) {
      CancelTargetsEveryOwnedActive(ds, name, k);
    }
  }

  lemma CancelTargetsOnlyOwnedActive(ds: seq<Deployment>, name: string, k: nat)
    requires UniqueIds(ds) && k < |ds|
    requires ds[k].Id() in WrittenIds(CancelWrites(OwnedBy(ds, name)))
    ensures ds[k].configName == name && IsActive(ds[k].status)
  {
    var items := OwnedBy(ds, name);
    var w :| w in CancelWrites(items) && w.Id() == ds[k].Id();
    CancelWritesExactly(items, w);
    var i :| 0 <= i < |items| && IsActive(items[i].status) && w == Cancelled(items[i]);
    assert items[i] in items;
    SameIdSameRecord(ds, items[i], k);
  }

  /** With unique identities, a record is determined by its identity. */
  lemma SameIdSameRecord(ds: seq<Deployment>, x: Deployment, k: nat)
    requires UniqueIds(ds) && k < |ds| && x in ds && x.Id() == ds[k].Id()
    ensures x == ds[k]
  {
    var m :| 0 <= m < |ds| && ds[m] == x;
    assert m == k;
  }

  lemma CancelTargetsEveryOwnedActive(ds: seq<Deployment>, name: string, k: nat)
    requires k < |ds| && ds[k].configName == name && IsActive(ds[k].status)
    ensures ds[k].Id() in WrittenIds(CancelWrites(OwnedBy(ds, name)))
  {
    var items := OwnedBy(ds, name);
    assert ds[k] in items;
    var i :| 0 <= i < |items| && items[i] == ds[k];
    CancelWritesExactly(items, Cancelled(ds[k]));
    assert Cancelled(ds[k]) in CancelWrites(items);
  }

  /** Cancel's effect on the records: an owned, active record whose write the client accepts
      gets the cancellation marker; every other record, and every status, is left as it was. */
  lemma CancelEffect(ds: seq<Deployment>, name: string, rejected: set<DeploymentId>)
    requires UniqueIds(ds)
    ensures var after := AfterUpdates(ds, CancelWrites(OwnedBy(ds, name)), rejected);
            |after| == |ds| &&
            forall k :: 0 <= k < |ds| ==>
              after[k] == if ds[k].configName == name && IsActive(ds[k].status) && ds[k].Id() !in rejected
                          then Cancelled(ds[k]) else ds[k]
  {
    CancelWritesAreMarkedRecords(ds, name);
    AfterMarkedUpdates(ds, CancelWrites(OwnedBy(ds, name)), rejected);
    forall k | 0 <= k < |ds| {
      CancelTargets(ds, name, k);
    }
  }
}
