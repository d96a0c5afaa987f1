/** The command-level scenarios the repository's tests exercise, each run against a fresh
    in-memory client set up the way the test's fake is, with the test's expectations as
    postconditions. */
module DeployScenarios {
  import opened DeployApi
  import opened DeployClient
  import opened DeployCommands

  /** The standard test config at `version`. */
  function OkConfig(version: nat): (c: Config)
    ensures c.name == "config" && c.latestVersion == version
  {
    Config("config", version)
  }

  /** Start-latest over a terminal current deployment writes the config once, at version 2,
      and writes no deployment. */
  method LatestOk(status: Status) returns (r: Result<Config>, configWrites: seq<Config>, deploymentWrites: seq<Deployment>)
    requires status == Complete || status == Failed
    ensures r == Ok(OkConfig(2))
    ensures configWrites == [OkConfig(2)] && deploymentWrites == []
  {
    var config := OkConfig(1);
    var store := new Store(config, [DeploymentFor(config, status)], false, false, {});
    FindUnique(store.deployments, 0);
    r := StartLatest(store, config);
    configWrites, deploymentWrites := store.configWrites, store.deploymentWrites;
  }

  /** Start-latest over a New, Pending or Running current deployment is refused and writes
      nothing. */
  method LatestConcurrentRejection(status: Status) returns (r: Result<Config>, configWrites: seq<Config>, deploymentWrites: seq<Deployment>)
    requires status == New || status == Pending || status == Running
    ensures r == Err(InProgress(1, status))
    ensures configWrites == [] && deploymentWrites == []
  {
    var config := OkConfig(1);
    var store := new Store(config, [DeploymentFor(config, status)], false, false, {});
    FindUnique(store.deployments, 0);
    r := StartLatest(store, config);
    configWrites, deploymentWrites := store.configWrites, store.deploymentWrites;
  }

  /** Start-latest whose lookup fails reports the failure and writes nothing. */
  method LatestLookupError() returns (r: Result<Config>, configWrites: seq<Config>, deploymentWrites: seq<Deployment>)
    ensures r == Err(StoreFailure)
    ensures configWrites == [] && deploymentWrites == []
  {
    var config := OkConfig(1);
    var store := new Store(config, [], true, false, {});
    r := StartLatest(store, config);
    configWrites, deploymentWrites := store.configWrites, store.deploymentWrites;
  }

  /** Retry of a Failed current deployment writes that deployment once, in status New, and
      writes no config. */
  method RetryOk() returns (r: Result<Deployment>, configWrites: seq<Config>, deploymentWrites: seq<Deployment>)
    ensures r.Ok? && r.value.status == New
    ensures |deploymentWrites| == 1 && deploymentWrites[0].status == New
    ensures deploymentWrites[0].Id() == LatestId(OkConfig(1))
    ensures configWrites == []
  {
    var config := OkConfig(1);
    var store := new Store(config, [DeploymentFor(config, Failed)], false, false, {});
    FindUnique(store.deployments, 0);
    r := Retry(store, config);
    configWrites, deploymentWrites := store.configWrites, store.deploymentWrites;
  }

  /** Retry of a current deployment in any status but Failed is refused and writes nothing. */
  method RetryRejectNonFailed(status: Status) returns (r: Result<Deployment>, configWrites: seq<Config>, deploymentWrites: seq<Deployment>)
    requires status != Failed
    ensures r == Err(NotRetryable(1, status))
    ensures configWrites == [] && deploymentWrites == []
  {
    var config := OkConfig(1);
    var store := new Store(config, [DeploymentFor(config, status)], false, false, {});
    FindUnique(store.deployments, 0);
    r := Retry(store, config);
    configWrites, deploymentWrites := store.configWrites, store.deploymentWrites;
  }

  /** A listing made only of the config's own records is the whole store. */
  lemma {:induction false} OwnedByAll(ds: seq<Deployment>, name: string)
    requires forall k :: 0 <= k < |ds| ==> ds[k].configName == name
    ensures OwnedBy(ds, name) == ds
    decreases |ds|
  {
    if ds != [] {
      OwnedByAll(ds[1..], name);
    }
  }

  /** Cancel over existing deployments of the config (each at its own version): it succeeds,
      makes no single-deployment lookup, writes no config, and the versions it wrote are, as a multiset, the versions of the
      New, Pending and Running deployments. */
  method CancelOk(version: nat, existing: seq<Deployment>) returns (r: Result<()>, lookups: nat, configWrites: seq<Config>, cancelled: seq<nat>)
    requires UniqueIds(existing)
    requires forall k :: 0 <= k < |existing| ==> existing[k].configName == "config"
    ensures r == Ok(())
    ensures lookups == 0 && configWrites == []
    ensures forall v :: multiset(cancelled)[v] == ActiveCount(existing, v)
  {
    var config := OkConfig(version);
    var store := new Store(config, existing, false, false, {});
    OwnedByAll(existing, "config");
    ghost var ws := CancelWrites(existing);
    CancelOutcomeOkIff(ws, {});
    r := Cancel(store, config);
    assert store.deploymentWrites == ws;
    lookups, configWrites := store.lookupCalls, store.configWrites;
    cancelled := Versions(store.deploymentWrites);
    forall v
      ensures multiset(cancelled)[v] == ActiveCount(existing, v)
    {
      CancelVersionsAreActiveVersions(existing, v);
    }
  }

  /** The test's record at `version` in `status`. */
  function Existing(version: nat, status: Status): Deployment {
    DeploymentFor(OkConfig(version), status)
  }

  /** How often version `v` is counted active in a three-record listing. */
  lemma ActiveCountOfThree(x: Deployment, y: Deployment, z: Deployment, v: nat)
    ensures ActiveCount([x, y, z], v) ==
              (if x.version == v && IsActive(x.status) then 1 else 0)
              + (if y.version == v && IsActive(y.status) then 1 else 0)
              + (if z.version == v && IsActive(z.status) then 1 else 0)
  {
    assert [x, y, z][..2] == [x, y];
    assert [x, y][..1] == [x];
    assert [x][..0] == [];
    assert ActiveCount([x], v) == if x.version == v && IsActive(x.status) then 1 else 0;
    assert ActiveCount([x, y], v) == ActiveCount([x], v) + if y.version == v && IsActive(y.status) then 1 else 0;
  }

  /** Three deployments, only the newest running: only it is cancelled. */
  method CancelOneOfThree() returns (r: Result<()>, cancelled: seq<nat>)
    ensures r == Ok(()) && multiset(cancelled) == multiset{3}
  {
    var x, y, z := Existing(3, Running), Existing(2, Complete), Existing(1, Failed);
    var lookups, configWrites;
    r, lookups, configWrites, cancelled := CancelOk(3, [x, y, z]);
    forall v
      ensures multiset(cancelled)[v] == multiset{3}[v]
    {
      ActiveCountOfThree(x, y, z, v);
    }
  }

  /** Three deployments, two of them in flight: both are cancelled, the failed one is not. */
  method CancelTwoOfThree() returns (r: Result<()>, cancelled: seq<nat>)
    ensures r == Ok(()) && multiset(cancelled) == multiset{3, 2}
  {
    var x, y, z := Existing(3, New), Existing(2, Running), Existing(1, Failed);
    var lookups, configWrites;
    r, lookups, configWrites, cancelled := CancelOk(3, [x, y, z]);
    forall v
      ensures multiset(cancelled)[v] == multiset{3, 2}[v]
    {
      ActiveCountOfThree(x, y, z, v);
    }
  }
}
