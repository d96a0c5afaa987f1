/** The lifecycle guarantee the three commands exist to keep: a config has at most one
    deployment in flight, and it is the one at the config's current version. Start-latest
    only advances the version once the current deployment is terminal; the deployment
    system then makes the record for the new version (Materialize); retry only revives
    the current version's record; cancel changes no status. */
module DeployLifecycle {
  import opened DeployApi
  import opened DeployClient
  import opened DeployCommands

  /** A record of `config` is never ahead of the config's version, and unless it is at
      that version it is terminal. Records of other configs are unconstrained. */
  predicate Conforms(config: Config, d: Deployment) {
    d.configName == config.name ==>
      d.version <= config.latestVersion
      && (d.version != config.latestVersion ==> IsTerminal(d.status))
  }

  predicate OnlyLatestMayBeActive(config: Config, ds: seq<Deployment>) {
    forall k :: 0 <= k < |ds| ==> Conforms(config, ds[k])
  }

  /** Under the invariant, two active records of the config are the same record. */
  lemma AtMostOneActive(config: Config, ds: seq<Deployment>, i: nat, j: nat)
    requires UniqueIds(ds) && OnlyLatestMayBeActive(config, ds)
    requires i < |ds| && j < |ds|
    requires ds[i].configName == config.name && IsActive(ds[i].status)
    requires ds[j].configName == config.name && IsActive(ds[j].status)
    ensures i == j
  {
    assert Conforms(config, ds[i]) && Conforms(config, ds[j]);
    assert ds[i].Id() == ds[j].Id();
  }

  /** What the deployment system makes once a config's version has been advanced: a
      record at the new version, in status New. */
  function Materialize(config: Config): (d: Deployment)
    ensures d.Id() == LatestId(config) && d.status == New && !d.cancelRequested
  {
    DeploymentFor(config, New)
  }

  /** When start-latest proceeds, every record of the config is terminal. */
  lemma StartLatestOnlyWhenAllTerminal(config: Config, ds: seq<Deployment>, next: Config)
    requires UniqueIds(ds) && OnlyLatestMayBeActive(config, ds)
    requires StartLatestPlan(config, Find(ds, LatestId(config))) == Ok(next)
    ensures forall k :: 0 <= k < |ds| && ds[k].configName == config.name ==>
              IsTerminal(ds[k].status) && ds[k].version < next.latestVersion
  {
    forall k | 0 <= k < |ds| && ds[k].configName == config.name
      ensures IsTerminal(ds[k].status) && ds[k].version < next.latestVersion
    {
      assert Conforms(config, ds[k]);
      if ds[k].version == config.latestVersion {
        FindUnique(ds, k);
      }
    }
  }

  /** Start-latest followed by the new record keeps the invariant, now for the advanced
      config, and keeps identities unique. */
  lemma StartLatestKeepsSingleActive(config: Config, ds: seq<Deployment>, next: Config)
    requires UniqueIds(ds) && OnlyLatestMayBeActive(config, ds)
    requires StartLatestPlan(config, Find(ds, LatestId(config))) == Ok(next)
    ensures UniqueIds(ds + [Materialize(next)])
    ensures OnlyLatestMayBeActive(next, ds + [Materialize(next)])
  {
    StartLatestOnlyWhenAllTerminal(config, ds, next);
    var after := ds + [Materialize(next)];
    forall k | 0 <= k < |after|
      ensures Conforms(next, after[k])
    {
      if k < |ds| {
        assert after[k] == ds[k];
      }
    }
    forall i, j | 0 <= i < j < |after|
      ensures after[i].Id() != after[j].Id()
    {
      if j < |ds| {
        assert after[i] == ds[i] && after[j] == ds[j];
      } else {
        assert after[i] == ds[i];
      }
    }
  }

  /** An accepted retry keeps the invariant: only the current version's record changes. */
  lemma RetryKeepsSingleActive(config: Config, ds: seq<Deployment>, revived: Deployment)
    requires UniqueIds(ds) && OnlyLatestMayBeActive(config, ds)
    requires RetryPlan(config, Find(ds, LatestId(config))) == Ok(revived)
    ensures OnlyLatestMayBeActive(config, Replace(ds, revived))
  {
    assert revived.Id() == LatestId(config);
    var after := Replace(ds, revived);
    forall k | 0 <= k < |after|
      ensures Conforms(config, after[k])
    {
      assert Conforms(config, ds[k]);
    }
  }

  /** Cancel keeps the invariant, whichever of its writes the client refuses. */
  lemma CancelKeepsSingleActive(config: Config, ds: seq<Deployment>, rejected: set<DeploymentId>)
    requires UniqueIds(ds) && OnlyLatestMayBeActive(config, ds)
    ensures OnlyLatestMayBeActive(config, AfterUpdates(ds, CancelWrites(OwnedBy(ds, config.name)), rejected))
  {
    CancelEffect(ds, config.name, rejected);
    var after := AfterUpdates(ds, CancelWrites(OwnedBy(ds, config.name)), rejected);
    forall k | 0 <= k < |after|
      ensures Conforms(config, after[k])
    {
      assert Conforms(config, ds[k]);
    }
  }

  /** Cancel alone does not unblock start-latest: it records the request but leaves the
      current deployment active until the deployment system acts on the marker. */
  lemma CancelThenStartLatestStillRejected(config: Config, ds: seq<Deployment>, rejected: set<DeploymentId>, k: nat)
    requires UniqueIds(ds) && k < |ds|
    requires ds[k].Id() == LatestId(config) && IsActive(ds[k].status)
    ensures var after := AfterUpdates(ds, CancelWrites(OwnedBy(ds, config.name)), rejected);
            StartLatestPlan(config, Find(after, LatestId(config))) == Err(InProgress(config.latestVersion, ds[k].status))
  {
    CancelEffect(ds, config.name, rejected);
    var after := AfterUpdates(ds, CancelWrites(OwnedBy(ds, config.name)), rejected);
    AfterUpdatesKeepsUniqueIds(ds, CancelWrites(OwnedBy(ds, config.name)), rejected);
    assert after[k].Id() == ds[k].Id() && after[k].status == ds[k].status;
    FindUnique(after, k);
  }
}
