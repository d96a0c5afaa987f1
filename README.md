# Deployment lifecycle commands

A Dafny model of the deployment lifecycle core of the command-line deploy commands.
There are three commands, each working on one deployment config through a client port:

- **start-latest** advances the config's `LatestVersion` by one. It does so only when the
  deployment at the current version is absent or in a terminal status.
- **retry** rewrites a Failed current deployment back to New, in place. It keeps the same
  version and identity.
- **cancel** lists every deployment of the config, across all versions. It writes a
  cancellation request onto each one in New, Pending or Running and leaves Complete and
  Failed ones alone.

The only source file modelled is `pkg/cmd/cli/cmd/deploy_test.go`. It holds the fake client
port, the `deploymentFor` helper and the tests that pin the three commands down. The commands'
implementation file (`pkg/cmd/cli/cmd/deploy.go`) is not part of this model, so the commands
are modelled from what those tests assert.

Layout:

- `deploy_api.dfy` (module `DeployApi`) holds the status enumeration and the terminal/active
  partition, written once as `IsTerminal`. It also holds the config, deployment-identity,
  deployment and failure records, and `DeploymentFor`.
- `deploy_client.dfy` (module `DeployClient`) models the client port, `deployCommandClientImpl`,
  as the class `Store`. The class holds:
  - the persisted config and deployment records;
  - call counters for get and list;
  - write logs for config and deployment updates, recording every call the way the test
    fakes do;
  - fault settings: reads fail, config writes fail, or writes to chosen deployments fail.

  The module also holds the pure functions that give the store's answers and its state after
  updates.
- `deploy_commands.dfy` (module `DeployCommands`) holds the three commands as methods on a
  `Store`, each proved against a pure decision function. Start-latest and retry use
  `StartLatestPlan` and `RetryPlan`. Cancel is a loop over the listing, specified by
  `CancelWrites`, `AfterUpdates` and `CancelOutcome`. The module also holds the lemmas about
  what cancel writes and what it does to the records.
- `deploy_lifecycle.dfy` (module `DeployLifecycle`) holds the single-active-deployment
  invariant. At most one deployment of a config is active, and it is the one at the config's
  current version. The module proves that each command preserves this invariant.
- `deploy_scenarios.dfy` (module `DeployScenarios`) holds each test of the test file as a
  method. Each builds a store the way the test's fake is set up, runs the command, and has the
  test's expectations as postconditions.

## Model

| member | source | states |
|---|---|---|
| DeployApi.DeploymentFor | pkg/cmd/cli/cmd/deploy_test.go:18-22 | a deployment made from a config carries the config's name and current version (its identity is the config's latest identity) and exactly the given status, with no cancellation request |
| DeployClient.Find | pkg/cmd/cli/cmd/deploy_test.go:31-33 | looking a deployment up by identity never errors in the store; a found record is in the store under that identity, and NotFound holds exactly when no record has the identity |
| DeployClient.FindUnique | pkg/cmd/cli/cmd/deploy_test.go:31-33 | with unique identities, the lookup of a record's identity answers that very record |
| DeployClient.OwnedBy | pkg/cmd/cli/cmd/deploy_test.go:221-223 | the listing for a config holds exactly the store's records owned by that config, and nothing more |
| DeployClient.OwnedByIsSubMultiset | pkg/cmd/cli/cmd/deploy_test.go:221-223 | the listing repeats no record: as a multiset it is contained in the store's records |
| DeployClient.ReplaceKeepsIds | pkg/cmd/cli/cmd/deploy_test.go:228-231 | an accepted deployment update keeps the number of records and every record's identity at its place, so identities stay unique |
| DeployClient.AfterUpdatesKeepsUniqueIds | pkg/cmd/cli/cmd/deploy_test.go:228-231 | any sequence of deployment updates, accepted or refused, keeps identities unique |
| DeployClient.Store.constructor | pkg/cmd/cli/cmd/deploy_test.go:30-42 | a fresh client holds the given config, records and fault settings, and has received no calls |
| DeployClient.Store.GetDeployment | pkg/cmd/cli/cmd/deploy_test.go:31-33 | get counts one lookup call, changes no record and no log, and answers the stored record for the identity, NotFound, or an error exactly when reads fail |
| DeployClient.Store.ListDeploymentsForConfig | pkg/cmd/cli/cmd/deploy_test.go:221-223 | list counts one list call, changes no record and no log, and answers exactly the config's records, or an error exactly when reads fail |
| DeployClient.Store.UpdateDeploymentConfig | pkg/cmd/cli/cmd/deploy_test.go:34-37 | update-config appends the config to the config log; when accepted it becomes the stored config and is answered back, otherwise an error is answered and the stored config is kept; deployments are untouched, so unique identities are kept |
| DeployClient.Store.UpdateDeployment | pkg/cmd/cli/cmd/deploy_test.go:228-231 | update-deployment appends the record to the deployment log; it is refused exactly for the rejected identities, leaving the records as they were; when accepted the record with that identity is replaced; the config is untouched; unique identities are kept |
| DeployCommands.StartLatestPlan | pkg/cmd/cli/cmd/deploy_test.go:46-103 | start-latest proceeds exactly when there is no current deployment or it is Complete or Failed, and then targets the same config at version + 1; a New, Pending or Running current deployment is rejected with its version and status; a failed lookup is rejected as a store failure |
| DeployCommands.StartLatest | pkg/cmd/cli/cmd/deploy_test.go:26-130 | start-latest makes one lookup of the current version's identity and never writes a deployment; when its rule rejects it makes no config write; otherwise it makes exactly one config write at version + 1, which on success is the stored config |
| DeployCommands.RetryPlan | pkg/cmd/cli/cmd/deploy_test.go:133-204 | retry proceeds exactly when the current deployment is Failed, and then targets the same identity with status New and no pending cancellation request; NotFound, every other status and a failed lookup are each rejected with their own error |
| DeployCommands.Retry | pkg/cmd/cli/cmd/deploy_test.go:133-204 | retry makes one lookup and never writes the config; when rejected it writes nothing; otherwise it makes exactly one deployment write, of the revived record, which on success replaces the stored record |
| DeployCommands.Cancel | pkg/cmd/cli/cmd/deploy_test.go:209-296 | cancel makes one list call and no single-deployment lookup, and never writes the config; a failed listing writes nothing; otherwise its deployment writes are exactly the cancel writes for the listing, in order, the records are as after those writes, and it succeeds unless some write was refused |
| DeployCommands.CancelWrites | pkg/cmd/cli/cmd/deploy_test.go:279-288 | cancel makes no more writes than there are listed deployments (which writes, CancelWritesExactly states) |
| DeployCommands.CancelWritesExactly | pkg/cmd/cli/cmd/deploy_test.go:244-261 | a record is among cancel's writes exactly when it is a listed New, Pending or Running deployment with the cancellation request set |
| DeployCommands.CancelVersionsAreActiveVersions | pkg/cmd/cli/cmd/deploy_test.go:279-293 | each version occurs among cancel's writes exactly as often as among the listed deployments in New, Pending or Running (the tests' sorted comparison) |
| DeployCommands.CancelPartitionsVersions | pkg/cmd/cli/cmd/deploy_test.go:206-208 | the listed versions split, as multisets, into the versions cancel writes and the versions of the deployments it leaves alone |
| DeployCommands.UntouchedAreTerminal | pkg/cmd/cli/cmd/deploy_test.go:206-208 | every listed deployment cancel leaves alone is Complete or Failed |
| DeployCommands.CancelWritesNothingIff | pkg/cmd/cli/cmd/deploy_test.go:245-250 | cancel writes nothing exactly when every listed deployment is terminal |
| DeployCommands.CancelOutcomeOkIff | pkg/cmd/cli/cmd/deploy_test.go:274-277 | cancel succeeds exactly when the client accepts every write it makes; every version it reports is the version of a refused write |
| DeployCommands.AfterMarkedUpdates | pkg/cmd/cli/cmd/deploy_test.go:228-231 | after accepted writes of marked copies of the store's own records, a record is marked exactly when an accepted write carries its identity |
| DeployCommands.CancelWritesAreMarkedRecords | pkg/cmd/cli/cmd/deploy_test.go:268-274 | every write cancel makes is a stored record with the cancellation request set |
| DeployCommands.CancelTargets | pkg/cmd/cli/cmd/deploy_test.go:244-261 | cancel writes to a stored record's identity exactly when the record belongs to the config and is New, Pending or Running |
| DeployCommands.CancelEffect | pkg/cmd/cli/cmd/deploy_test.go:206-208 | after cancel, a record of the config that was active and whose write was accepted carries the cancellation request; every other record is unchanged, and no status changes |
| DeployLifecycle.AtMostOneActive | pkg/cmd/cli/cmd/deploy_test.go:69-70 | under the invariant, two active deployments of the config are the same record |
| DeployLifecycle.Materialize | pkg/cmd/cli/cmd/deploy_test.go:18-22 | the record the deployment system makes after a version bump has the config's new identity, status New and no cancellation request |
| DeployLifecycle.StartLatestOnlyWhenAllTerminal | pkg/cmd/cli/cmd/deploy_test.go:46-65 | when start-latest proceeds under the invariant, every deployment of the config is terminal and older than the new version |
| DeployLifecycle.StartLatestKeepsSingleActive | pkg/cmd/cli/cmd/deploy_test.go:71-104 | start-latest followed by the new version's record keeps identities unique and the invariant, for the advanced config |
| DeployLifecycle.RetryKeepsSingleActive | pkg/cmd/cli/cmd/deploy_test.go:168-204 | an accepted retry keeps the invariant |
| DeployLifecycle.CancelKeepsSingleActive | pkg/cmd/cli/cmd/deploy_test.go:206-208 | cancel keeps the invariant, whichever of its writes are refused |
| DeployLifecycle.CancelThenStartLatestStillRejected | pkg/cmd/cli/cmd/deploy_test.go:71-104 | an active current deployment still makes start-latest reject after cancel, with its unchanged status, until the deployment system acts on the request |
| DeployScenarios.LatestOk | pkg/cmd/cli/cmd/deploy_test.go:26-67 | over a Complete or Failed deployment at version 1, start-latest succeeds, writes the config once at version 2 and writes no deployment |
| DeployScenarios.LatestConcurrentRejection | pkg/cmd/cli/cmd/deploy_test.go:71-104 | over a New, Pending or Running deployment at version 1, start-latest fails with that status and writes nothing |
| DeployScenarios.LatestLookupError | pkg/cmd/cli/cmd/deploy_test.go:108-130 | when the lookup fails, start-latest fails and writes nothing |
| DeployScenarios.RetryOk | pkg/cmd/cli/cmd/deploy_test.go:133-166 | over a Failed deployment, retry succeeds and writes that deployment once with status New, and writes no config |
| DeployScenarios.RetryRejectNonFailed | pkg/cmd/cli/cmd/deploy_test.go:170-204 | over a deployment in any status but Failed, retry fails naming that status and writes nothing |
| DeployScenarios.CancelOk | pkg/cmd/cli/cmd/deploy_test.go:209-296 | over any listing of the config's deployments with distinct versions, cancel succeeds, makes no lookup and no config write, and the multiset of versions it writes is the multiset of versions in New, Pending or Running |
| DeployScenarios.CancelOneOfThree | pkg/cmd/cli/cmd/deploy_test.go:258 | over versions 3 Running, 2 Complete and 1 Failed, cancel succeeds and writes only version 3 |
| DeployScenarios.CancelTwoOfThree | pkg/cmd/cli/cmd/deploy_test.go:260 | over versions 3 New, 2 Running and 1 Failed, cancel succeeds and writes versions 3 and 2 |

## Left out

- Progress output to the `io.Writer` sink is messaging, not logic.
- `deployutil.MakeDeployment` and the codecs that encode a config into a replication
  controller are foreign serialisation. A deployment is an abstract record: owner, version,
  status and cancellation request.
- The real cluster client and its storage are left out. The client is the in-memory `Store`.
- The namespace argument of every client call is not modelled, because all calls use one
  namespace.
- The status annotation is not modelled as a string, and the parse that rejects unrecognised
  tokens is left out. Status is an enumeration, so an unrecognised status cannot occur, and
  neither can the cancel scan's skip-on-unparseable-status path.
- Deployment names are a string derived from config name and version. The model uses a
  name/version pair instead; the derivation is injective, so the pair is equivalent.
- Cancel: what cancel writes is an assumed policy. The tests only check which versions are
  written, not what. The model sets a cancellation-request marker and keeps the status.
- RetryPlan: clearing the cancellation request when a Failed deployment is revived is an
  assumed policy. The tests pin only the New status of the written record; clearing makes the
  revived deployment runnable again rather than due for cancellation.
- Cancel: the partial-failure handling is also an assumed policy that the tests do not
  assert. The scan continues after a refused write, and the refused versions are reported
  together.
- StartLatest: the command changes the caller's config object in place, and the test reads
  the new version from the written config. The model returns the new config and stores it
  instead; the caller's value is not aliased.
- Optimistic-concurrency conflicts in the store are modelled only as a refused write.
  Concurrent invocations are out of scope.
- The deployment system that makes the record for a new version is outside the core. It
  appears only as `Materialize`, in the lifecycle invariant's proof.
- The test at line 245 is commented "No existing deployments" but lists one Complete
  deployment. `CancelWritesNothingIff` and `CancelOk` cover both the empty listing and the
  all-terminal listing.
