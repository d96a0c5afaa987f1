/** The client port the three commands share: get one deployment, list the deployments
    of a config, update the config, update a deployment. It is modelled as an in-memory
    store that records the calls it receives, the way the test doubles do, and
    that can be told to fail reads, config writes, or writes to given deployments. */
module DeployClient {
  import opened DeployApi

  /** The outcome of fetching one deployment by identity. */
  datatype Lookup = Found(deployment: Deployment) | NotFound | LookupError

  /** No two records share an identity. */
  predicate UniqueIds(ds: seq<Deployment>) {
    forall i, j :: 0 <= i < j < |ds| ==> ds[i].Id() != ds[j].Id()
  }

  /** The first record with identity `id`, or NotFound. */
  function Find(ds: seq<Deployment>, id: DeploymentId): (l: Lookup)
    ensures !l.LookupError?
    ensures l.Found? ==> l.deployment in ds && l.deployment.Id() == id
    ensures l.NotFound? <==> forall k :: 0 <= k < |ds| ==> ds[k].Id() != id
  {
    if ds == [] then NotFound
    else if ds[0].Id() == id then Found(ds[0])
    else Find(ds[1..], id)
  }

  /** With unique identities, Find returns the one record that has the identity. */
  lemma {:induction false} FindUnique(ds: seq<Deployment>, k: nat)
    requires UniqueIds(ds) && k < |ds|
    ensures Find(ds, ds[k].Id()) == Found(ds[k])
  {
    if k > 0 {
      assert ds[0].Id() != ds[k].Id();
      assert ds[1..][k - 1] == ds[k];
      FindUnique(ds[1..], k - 1);
    }
  }

  /** The records owned by the config named `name`, in store order. */
  function OwnedBy(ds: seq<Deployment>, name: string): (r: seq<Deployment>)
    ensures |r| <= |ds|
    ensures forall d :: d in r <==> d in ds && d.configName == name
  {
    if ds == [] then []
    else (if ds[0].configName == name then [ds[0]] else []) + OwnedBy(ds[1..], name)
  }

  /** The listing repeats no record and invents none: it is a sub-multiset of the store. */
  lemma {:induction false} OwnedByIsSubMultiset(ds: seq<Deployment>, name: string)
    ensures multiset(OwnedBy(ds, name)) <= multiset(ds)
    decreases |ds|
  {
    if ds != [] {
      OwnedByIsSubMultiset(ds[1..], name);
      assert ds == [ds[0]] + ds[1..];
    }
  }

  /** The store after an accepted update of `d`: the record with `d`'s identity becomes `d`. */
  function Replace(ds: seq<Deployment>, d: Deployment): seq<Deployment> {
    seq(|ds|, k requires 0 <= k < |ds| => if ds[k].Id() == d.Id() then d else ds[k])
  }

  /** The store after the update calls `ws`, in order; writes to a `rejected` identity change nothing. */
  function AfterUpdates(ds: seq<Deployment>, ws: seq<Deployment>, rejected: set<DeploymentId>): seq<Deployment>
    decreases |ws|
  {
    if ws == [] then ds
    else
      var before := AfterUpdates(ds, ws[..|ws| - 1], rejected);
      var w := ws[|ws| - 1];
      if w.Id() in rejected then before else Replace(before, w)
  }

  /** An update keeps every identity where it was, so identities stay unique. */
  lemma ReplaceKeepsIds(ds: seq<Deployment>, d: Deployment)
    ensures |Replace(ds, d)| == |ds|
    ensures forall k :: 0 <= k < |ds| ==> Replace(ds, d)[k].Id() == ds[k].Id()
    ensures UniqueIds(ds) ==> UniqueIds(Replace(ds, d))
  {
  }

  /** Any sequence of updates keeps identities unique. */
  lemma {:induction false} AfterUpdatesKeepsUniqueIds(ds: seq<Deployment>, ws: seq<Deployment>, rejected: set<DeploymentId>)
    requires UniqueIds(ds)
    ensures UniqueIds(AfterUpdates(ds, ws, rejected))
    decreases |ws|
  {
    if ws != [] {
      AfterUpdatesKeepsUniqueIds(ds, ws[..|ws| - 1], rejected);
      ReplaceKeepsIds(AfterUpdates(ds, ws[..|ws| - 1], rejected), ws[|ws| - 1]);
    }
  }

  /** The in-memory client: the persisted config and deployment records, the calls
      received so far, and the faults it is set up with. */
  class Store {
    var config: Config
    var deployments: seq<Deployment>
    /** How many get-deployment calls were made. */
    var lookupCalls: nat
    /** How many list-deployments-for-config calls were made. */
    var listCalls: nat
    /** Every update-config call, in order (accepted or not). */
    var configWrites: seq<Config>
    /** Every update-deployment call, in order (accepted or not). */
    var deploymentWrites: seq<Deployment>
    /** Get and list fail. */
    const readsFail: bool
    /** Update-config fails. */
    const configWritesFail: bool
    /** Update-deployment fails for these identities. */
    const rejected: set<DeploymentId>

    /** Identities are unique: the store's data-integrity condition. The write methods
        do not need it; the commands keep it (see ReplaceKeepsIds). */
    ghost predicate Valid()
      reads this
    {
      UniqueIds(deployments)
    }

    constructor (config: Config, deployments: seq<Deployment>,
                 readsFail: bool, configWritesFail: bool, rejected: set<DeploymentId>)
      requires UniqueIds(deployments)
      ensures Valid()
      ensures this.config == config && this.deployments == deployments
      ensures this.readsFail == readsFail && this.configWritesFail == configWritesFail
      ensures this.rejected == rejected
      ensures lookupCalls == 0 && listCalls == 0
      ensures configWrites == [] && deploymentWrites == []
    {
      this.config := config;
      this.deployments := deployments;
      this.readsFail := readsFail;
      this.configWritesFail := configWritesFail;
      this.rejected := rejected;
      lookupCalls := 0;
      listCalls := 0;
      configWrites := [];
      deploymentWrites := [];
    }

    /** What get-deployment answers for `id` in the current state. */
    function Observe(id: DeploymentId): Lookup
      reads this
    {
      if readsFail then LookupError else Find(deployments, id)
    }

    /** What list-deployments-for-config answers for `name` in the current state. */
    function Listing(name: string): Result<seq<Deployment>>
      reads this
    {
      if readsFail then Err(StoreFailure) else Ok(OwnedBy(deployments, name))
    }

    method GetDeployment(id: DeploymentId) returns (l: Lookup)
      modifies this
      ensures lookupCalls == old(lookupCalls) + 1
      ensures listCalls == old(listCalls) && configWrites == old(configWrites) && deploymentWrites == old(deploymentWrites)
      ensures config == old(config) && deployments == old(deployments)
      ensures l == old(Observe(id))
      ensures readsFail <==> l.LookupError?
      ensures l.Found? ==> l.deployment in deployments && l.deployment.Id() == id
      ensures l.NotFound? ==> forall k :: 0 <= k < |deployments| ==> deployments[k].Id() != id
    {
      lookupCalls := lookupCalls + 1;
      if readsFail {
        l := LookupError;
      } else {
        l := Find(deployments, id);
      }
    }

    method ListDeploymentsForConfig(name: string) returns (r: Result<seq<Deployment>>)
      modifies this
      ensures listCalls == old(listCalls) + 1
      ensures lookupCalls == old(lookupCalls) && configWrites == old(configWrites) && deploymentWrites == old(deploymentWrites)
      ensures config == old(config) && deployments == old(deployments)
      ensures r == old(Listing(name))
      ensures readsFail <==> r.Err?
      ensures r.Ok? ==> forall d :: d in r.value <==> d in deployments && d.configName == name
    {
      listCalls := listCalls + 1;
      if readsFail {
        r := Err(StoreFailure);
      } else {
        r := Ok(OwnedBy(deployments, name));
      }
    }

    method UpdateDeploymentConfig(c: Config) returns (r: Result<Config>)
      modifies this
      ensures configWrites == old(configWrites) + [c]
      ensures lookupCalls == old(lookupCalls) && listCalls == old(listCalls)
      ensures deploymentWrites == old(deploymentWrites) && deployments == old(deployments)
      ensures old(Valid()) ==> Valid()
      ensures configWritesFail ==> r == Err(StoreFailure) && config == old(config)
      ensures !configWritesFail ==> r == Ok(c) && config == c
    {
      configWrites := configWrites + [c];
      if configWritesFail {
        r := Err(StoreFailure);
      } else {
        config := c;
        r := Ok(c);
      }
    }

    method UpdateDeployment(d: Deployment) returns (r: Result<Deployment>)
      modifies this
      ensures deploymentWrites == old(deploymentWrites) + [d]
      ensures lookupCalls == old(lookupCalls) && listCalls == old(listCalls)
      ensures configWrites == old(configWrites) && config == old(config)
      ensures r.Err? <==> d.Id() in rejected
      ensures old(Valid()) ==> Valid()
      ensures d.Id() in rejected ==> r == Err(StoreFailure) && deployments == old(deployments)
      ensures d.Id() !in rejected ==> r == Ok(d) && deployments == Replace(old(deployments), d)
    {
      deploymentWrites := deploymentWrites + [d];
      if d.Id() in rejected {
        r := Err(StoreFailure);
      } else {
        ReplaceKeepsIds(deployments, d);
        deployments := Replace(deployments, d);
        r := Ok(d);
      }
    }
  }
}
