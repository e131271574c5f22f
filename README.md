# cloud-nuke resource controllers, modelled in Dafny

This project models four of cloud-nuke's per-resource-kind controllers.
Each controller finds the resources of one AWS kind in a region, filters them
through the user's include/exclude configuration, and deletes the ones that
pass. The four modelled controllers are:

- **RDS DB subnet groups** (`RdsSubnetGroups`, `rds_subnet_group.dfy`). Discovery is a paged describe, filtered on the group name only. Deletion deletes every group and records every attempt in the report. It then waits on the successfully deleted groups in order, each with a bounded poll of at most 90 describe probes, stopping at the first wait failure and returning it.
- **EC2 key pairs** (`Ec2KeyPairs`, `ec2_key_pair.dfy`). Discovery is one describe, filtered on key name and create time. It returns key pair *ids*. Deletion attempts every id and aggregates every failure into one multi-error.
- **DynamoDB tables** (`DynamoDb`, `dynamodb.dfy`). Discovery lists table names page by page and describes each table. It filters on the described name and creation time, and returns the listed name. Deletion records every attempt, stops at the first AWS-typed error, and passes silently over any other error.
- **Transit gateway attachments, route tables and gateways** (`TransitGatewayTypes`, `transit_gateway_types.dfy`). Each controller has a fixed name and a shared batch size. It keeps a cache of fetched identifiers that is updated only on success, and a `Nuke` that passes its input through.

The AWS clients are replaced by oracles:

- A paged listing is a `Listing(pages, err)`: the pages the SDK delivered, in order, and the error that ended the listing, if any.
- A delete is a function from identifier to `Option<Error>`.
- The RDS describe probe is a function of the group name and the attempt number.
- `ShouldInclude` is an uninterpreted predicate over `ResourceValue`.
- The global `report.Record` ledger is a `Common.Ledger` object passed to the delete loops. Its `entries` field is only ever appended to.

Shared machinery lives in two modules:

- `Common` holds the errors, results, report entries and the ledger.
- `Selection` holds the filter-and-emit function. Every discovery loop is proved against it.

`scenarios.dfy` states concrete cases as lemmas. The DynamoDB lemmas restate the repository's DynamoDB tests, and one lemma restates the ECR test's time-boundary case on the DynamoDB test tables; they use the filter instances those tests configure. `AlwaysPresentTimesOut` comes from no test: it is a concrete case of the RDS wait.

Failure handling differs between the controllers, and the model keeps each policy as the code has it:

- The RDS delete loop never returns a delete failure; only wait failures are returned. Among the modelled outputs, a failed delete appears only in the report.
- The DynamoDB delete loop drops non-AWS delete errors; they appear only in the report.
- The DynamoDB delete loop returns at the first AWS-typed delete error, and later tables are not attempted.
- The RDS waiter hard-codes 90 probes and returns `RdsDeleteError{name}` when they are exhausted.
- None of these controllers splits identifiers into batches.

## Model

| member | source | states |
|---|---|---|
| `Common.EntriesShape` | aws/resources/rds_subnet_group.go:68-79 | the ledger lines written for a list of identifiers are exactly one per identifier, in order, each carrying that identifier's own delete error or none |
| `Common.Ledger.Record` | aws/resources/rds_subnet_group.go:79 | recording appends exactly the given entry and keeps every earlier one |
| `Selection.MatchIndices` | aws/resources/rds_subnet_group.go:42-48 | the positions of the items a filter accepts are strictly increasing, each is accepted, and every accepted position is listed |
| `Selection.SelectAtMatches` | aws/resources/ec2_key_pair.go:20-30 | what a discovery loop returns is the emitted field of the accepted items, taken at their increasing positions: an order-preserving subsequence that holds every match |
| `Selection.SelectMembers` | aws/resources/dynamodb.go:21-33 | a value is returned iff some listed item passes the filter and emits it |
| `Selection.SelectConcat` | aws/resources/rds_subnet_group.go:39-51 | filtering a listing page by page gives the first page's matches followed by the next page's |
| `Selection.SelectNone` | aws/resources/dynamodb_test.go:86-92 | when the filter rejects every item, discovery returns nothing |
| `Selection.SelectAll` | aws/resources/dynamodb_test.go:73-76 | when the filter accepts every item, discovery returns all listed names in listing order |
| `RdsSubnetGroups.GetAll` | aws/resources/rds_subnet_group.go:37-57 | a failed listing returns only its error and discards the names already collected; otherwise the result is the names, in page-then-item order, whose name-only value passes `ShouldInclude` |
| `RdsSubnetGroups.PollFrom` | aws/resources/rds_subnet_group.go:18-35 | the wait makes between 1 and 90 probes; every probe before the last found the group present; it stops early only on a probe error; the result is that last probe's verdict: nil for "not found", the error itself otherwise, and `RdsDeleteError(name)` if the 90th probe still found the group |
| `RdsSubnetGroups.WaitUntilDeleted` | aws/resources/rds_subnet_group.go:18-35 | the counted poll loop makes at most 90 probes and returns exactly the wait's verdict after exactly the wait's number of probes |
| `RdsSubnetGroups.AwaitStopsAtFirstError` | aws/resources/rds_subnet_group.go:21-28 | the first probe to report an error ends the wait after exactly that many probes; "not found" gives nil and any other error is returned unchanged |
| `RdsSubnetGroups.AwaitTimesOut` | aws/resources/rds_subnet_group.go:20-34 | a group present on all 90 probes gives `RdsDeleteError` carrying exactly its name, after 90 probes |
| `RdsSubnetGroups.AwaitSucceedsIff` | aws/resources/rds_subnet_group.go:18-25 | the wait succeeds iff, within the first 90 probes, some probe reports `DBSubnetGroupNotFoundFault` and every earlier probe found the group present |
| `RdsSubnetGroups.GoneOnLastProbe` | aws/resources/rds_subnet_group.go:20-25 | a group present on 89 probes and gone on the 90th is a success after 90 probes |
| `RdsSubnetGroups.AwaitAllFirstFailure` | aws/resources/rds_subnet_group.go:94-103 | waits run in order; the result is nil only if every wait succeeded and all were waited on; otherwise it is the error of the last group waited on, every earlier wait succeeded, and no later group was waited on |
| `RdsSubnetGroups.NukeAll` | aws/resources/rds_subnet_group.go:59-107 | every name is deleted in order and gets exactly one ledger entry, whatever earlier deletes did; an empty list writes nothing and returns nil; then the successfully deleted names are waited on, in order, until the first wait failure, which is returned; otherwise nil |
| `RdsSubnetGroups.DeleteFailuresNeverSurface` | aws/resources/rds_subnet_group.go:81-106 | when every successfully deleted group then disappears, the result is nil even if other deletes failed, and every deleted group was waited on |
| `RdsSubnetGroups.WaitedOnlyDeleted` | aws/resources/rds_subnet_group.go:81-97 | a name is in the list of groups to wait on iff it was given and its delete succeeded |
| `Ec2KeyPairs.GetAll` | aws/resources/ec2_key_pair.go:14-31 | a failed describe returns only its error; otherwise the result is the `KeyPairId`s of the key pairs whose name and create time pass `ShouldInclude`, in listing order |
| `Ec2KeyPairs.EmitsIdNotName` | aws/resources/ec2_key_pair.go:20-30 | over the whole listing, every key pair that passes the filter is reported by its `KeyPairId`, and every reported id is the `KeyPairId` of some key pair that passes the filter |
| `Ec2KeyPairs.DeleteKeyPair` | aws/resources/ec2_key_pair.go:33-45 | nil exactly when the client's delete reported no error, and otherwise that error |
| `Ec2KeyPairs.FailedErrorsAtFailures` | aws/resources/ec2_key_pair.go:57-74 | the aggregate holds one error per failed id, in input order, each the error that id's delete returned |
| `Ec2KeyPairs.FailedErrorsEmptyIff` | aws/resources/ec2_key_pair.go:57-74 | nothing is aggregated iff every delete succeeded |
| `Ec2KeyPairs.DeletedPlusFailedIsAll` | aws/resources/ec2_key_pair.go:56-70 | the success counter plus the number of aggregated errors equals the number of ids |
| `Ec2KeyPairs.NukeAll` | aws/resources/ec2_key_pair.go:47-75 | every id is attempted in input order, including after failures, and none is attempted for an empty list; the counter counts the successes; the result is nil when nothing failed and otherwise the multi-error of all failures |
| `Ec2KeyPairs.NukeAllNilIff` | aws/resources/ec2_key_pair.go:57-75 | the delete loop returns nil iff every delete succeeded |
| `DynamoDb.GetAll` | aws/resources/dynamodb.go:16-43 | a failed listing returns only its error; otherwise the result is the listed table names, in page-then-item order, whose described name and creation time pass `ShouldInclude` |
| `DynamoDb.StopIndex` | aws/resources/dynamodb.go:52-80 | the stopping position is the first table whose delete failed with an AWS error, or the list's length when there is none |
| `DynamoDb.NukeAll` | aws/resources/dynamodb.go:45-84 | tables are attempted in order up to and including the first AWS-typed delete error, and none after it; each attempted table has its ledger entry written before the loop looks at its error; the result is that AWS error, or nil |
| `DynamoDb.FirstAwsErrorStops` | aws/resources/dynamodb.go:67-79 | the first AWS delete error is returned, and exactly the tables up to and including it were attempted |
| `DynamoDb.NilIffNoAwsError` | aws/resources/dynamodb.go:67-83 | the result is nil iff no delete failed with an AWS error; then every table was attempted, including those whose delete failed with another error |
| `DynamoDb.LedgerOnePerAttempt` | aws/resources/dynamodb.go:52-65 | each attempted table has exactly one ledger entry, in order, carrying its own delete error |
| `TransitGatewayTypes.ResourceNamesDistinct` | aws/resources/transit_gateway_types.go:24-26 | the three kinds' names are pairwise distinct: two kinds report the same name iff they are the same kind |
| `TransitGatewayTypes.SameBatchSize` | aws/resources/transit_gateway_types.go:29-31 | all three kinds report the same shared batch size |
| `TransitGatewayTypes.TransitGatewayController.ResourceIdentifiers` | aws/resources/transit_gateway_types.go:34-36 | returns the cached `Ids` and, as a read-only function, changes no field |
| `TransitGatewayTypes.TransitGatewayController.GetAndSetIdentifiers` | aws/resources/transit_gateway_types.go:38-46 | on a successful fetch the cache becomes the fetched identifiers, which are returned; on a failed fetch its error is returned and the cache is unchanged |
| `TransitGatewayTypes.TransitGatewayController.Nuke` | aws/resources/transit_gateway_types.go:49-55 | the identifiers go to `nukeAll` unchanged; the result is nil iff `nukeAll` returned nil, and otherwise its error |
| `TransitGatewayTypes.RefreshThenRead` | aws/resources/transit_gateway_types.go:34-46 | after a successful fetch, the getter reports exactly the fetched identifiers |
| `Scenarios.DynamoNoRulesKeepsBoth` | aws/resources/dynamodb_test.go:73-76 | for table1 created at `now` and table2 one tick later, with no rules both tables come back in listing order |
| `Scenarios.DynamoNameExclusionKeepsTable2` | aws/resources/dynamodb_test.go:77-85 | excluding the name pattern "table1" leaves only table2 |
| `Scenarios.DynamoTimeAfterExclusionKeepsNone` | aws/resources/dynamodb_test.go:86-92 | excluding creation after `now - 1` leaves nothing, since both tables were created later |
| `Scenarios.DynamoNukeAllScenario` | aws/resources/dynamodb_test.go:105-117 | when both deletes succeed, both tables are attempted and the result is nil |
| `Scenarios.DynamoTimeAfterNowKeepsTable1` | aws/resources/ecr_test.go:71-77 | the same time-boundary rule applied to the modelled DynamoDB discovery: excluding creation after `now` keeps table1, created at exactly `now`, and drops table2, created one tick later |
| `Scenarios.AlwaysPresentTimesOut` | aws/resources/rds_subnet_group.go:20-34 | a group that never disappears is given up on after exactly 90 probes, with `RdsDeleteError` naming it |

## Left out

- AWS SDK clients, sessions and `Init` (which sets `Client`) are not modelled: every client call is an oracle parameter. The `Region` field is used only in log messages and telemetry events and is not modelled.
- SDK paging mechanics are not modelled. The page callback always asks for the next page until the last one, so a listing is the pages delivered plus the error that ended it.
- The body of `ShouldInclude` is not part of this model, because the `config` package is not part of this model. The filters in `Scenarios` are only the instances the tests configure.
- `time.Sleep`, the 10-second interval and the 15-minute budget of the RDS wait are not modelled; only the probe count is.
- Logging and `telemetry.TrackEvent` are fire-and-forget side effects and are not modelled.
- DynamoDB `DescribeTable` failure calls `log.Fatalf` and ends the process, so the describe oracle always answers.
- `errors.WithStackTrace` is the identity on error values.
- The report ledger's locking is not modelled. Concurrent writers are outside this sequential model.
- An oracle answers a repeated identifier the same way each time. A second delete of the same name in one list is not modelled as failing.
- A nil `*string` identifier is not modelled: identifiers are strings.
- The two branches of the DynamoDB `switch aerr.Error()` return the same value, so the model does not distinguish them.
- The `getAll` and `nukeAll` of the transit gateway kinds are not part of this model. Their results are parameters of `GetAndSetIdentifiers` and `Nuke`.
- TransitGatewayTypes.MaxBatchSize: the value of the shared `maxBatchSize` constant is defined in a file that is not part of this model. Only that all three kinds report the same value is stated.
- Batch partitioning, cross-region scheduling and cancellation do not occur in the modelled files.
