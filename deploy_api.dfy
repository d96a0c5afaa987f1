/** The deployment status model and the records the lifecycle commands work on:
    a deployment config with its version counter, and the deployments made from it. */
module DeployApi {

  /** The lifecycle status a deployment record carries. */
  datatype Status = New | Pending | Running | Complete | Failed

  /** The one place the terminal/active partition is defined: a terminal deployment
      will not move on by itself; every other one is (or may become) busy. */
  predicate IsTerminal(s: Status) {
    s == Complete || s == Failed
  }

  predicate IsActive(s: Status) {
    !IsTerminal(s)
  }

  /** A deployment config, identified by its name, targeting `latestVersion`. */
  datatype Config = Config(name: string, latestVersion: nat)

  /** The identity of a deployment: the owning config's name and the version it was made at.
      Two deployments have the same identity exactly when both parts agree. */
  datatype DeploymentId = DeploymentId(configName: string, version: nat)

  /** A deployment record: owner, version, status, and the cancellation marker that the
      cancel command sets (the running controller acts on it). */
  datatype Deployment = Deployment(configName: string, version: nat, status: Status, cancelRequested: bool)
  {
    function Id(): DeploymentId {
      DeploymentId(configName, version)
    }
  }

  /** The identity of the deployment a config currently targets. */
  function LatestId(config: Config): DeploymentId {
    DeploymentId(config.name, config.latestVersion)
  }

  /** A deployment made from `config` at its current version, carrying `status`. */
  function DeploymentFor(config: Config, status: Status): (d: Deployment)
    ensures d.Id() == LatestId(config)
    ensures d.status == status && !d.cancelRequested
  {
    Deployment(config.name, config.latestVersion, status, false)
  }

  /** Why a command did not (fully) succeed. */
  datatype Failure =
    | StoreFailure                                  // a read or write through the client failed
    | InProgress(version: nat, status: Status)      // start-latest while the current deployment is active
    | NotRetryable(version: nat, status: Status)    // retry of a deployment that is not Failed
    | NoDeployment(version: nat)                    // retry with no deployment at the current version
    | CancelFailed(versions: seq<nat>)              // cancel writes the client refused, in listing order

  datatype Result<T> = Ok(value: T) | Err(error: Failure)
}
