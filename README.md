# Index auto-creation job, modelled in Dafny

`AutoCreate.go` is a cron job that makes sure tomorrow's Elasticsearch indices
exist. On every tick it does the following:

- It reads the comma-separated variables `INDEXES`, `SpecialList` and `QueryList`.
- For each prefix it forms `prefix + YYYYMMDD` of tomorrow's date.
- It checks whether that index exists.
- If the index is absent, it creates it with one of three settings/mapping
  templates. Special wins if a special-list entry is a substring of the name.
  Otherwise Query wins if a query-list entry is a substring. Otherwise the
  template is Default.

Both cluster calls go through `retry`: 3 attempts with 2 s between them. A
creation answered with HTTP 400 whose body contains
`resource_already_exists_exception` counts as a success.

This project models that decision core:

| module (file) | what it models |
|---|---|
| `Strings` (strings.dfy) | Go's `strings.Contains`, and `strings.Split` on `,` (with `Join` as its inverse) |
| `Calendar` (calendar.dfy) | `time.AddDate(0, 0, 1)` as a Gregorian next-day function, and `Format("20060102")` |
| `Responses` (responses.dfy) | how `indexExists` and `createIndexWithMapping` read a status code and body |
| `Client` (client.dfy) | the cluster as a class `Cluster`: a script of replies handed out in order, and a log of every request sent |
| `Templates` (templates.dfy) | the three template documents, `contains`, and the template selection |
| `Retrying` (retrying.dfy) | `retry`: a pure specification `RetryFrom`, lemmas about it, and the imperative `Retry` loop proved against it |
| `Provisioner` (provisioner.dfy) | the loops of `createIndexes` and `AddIndex` as methods over a `Cluster`, proved against the fold `Provision` of `ProvisionStep` |

I/O is abstracted as follows:

- The clock reading is the parameter `today`.
- The three configuration variables are string parameters.
- The Elasticsearch client is a `Cluster` whose replies are scripted.
- Sleeps are counted, not waited.
- Each name's outcome (`NameOutcome`) stands for what the source logs for it.

One fact comes from the client library rather than the source:
`Response.IsError()` is "status > 299". This is `IsErrorStatus`.

### Behaviour worth knowing

- **Unset `SpecialList` selects Special for every index.** `strings.Split("", ",")` is `[""]`, and the empty string is a substring of every name. So with `SpecialList` unset, every index gets the Special template, whatever `QueryList` says. An unmatched name gets Default only when both lists are set to entries that do not occur in it. `EndToEndExample` proves the set case and `EndToEndWithUnsetLists` the unset case.
- **Unset `INDEXES` still creates an index.** It splits to `[""]`, so one index is provisioned, named by the date alone.
- **A failed existence check never leads to creation.** The `continue` at AutoCreate.go:138 skips the name (`CheckFailureSkipsCreation`, `StepCreatesIffAbsent`).
- **Configuration variables.** The code reads `ELASTICSEARCH_HOST`, `ELASTICSEARCH_PORT`, `ELASTICSEARCH_USERNAME`, `ELASTICSEARCH_PASSWORD`, `INDEXES`, `SpecialList`, `QueryList` and `CRONTIME` (AutoCreate.go:85-96, 232). Only `INDEXES`, `SpecialList` and `QueryList` are modelled.

## Model

| member | source | states |
|---|---|---|
| `Strings.Contains` | AutoCreate.go:223 | true iff the substring occurs at some position of the string (so `""` occurs in every string) |
| `Strings.Split` | AutoCreate.go:118-120 | always at least one piece (`""` gives `[""]`), and no piece contains the separator |
| `Strings.JoinSplit` | AutoCreate.go:118-120 | joining the pieces with the separator gives back the split string |
| `Strings.SplitJoin` | AutoCreate.go:118-120 | splitting separator-free pieces joined with the separator gives the pieces back |
| `Calendar.DaysInMonth` | AutoCreate.go:122 | month lengths lie between 28 and 31, and a month has 29 days exactly for February of a Gregorian leap year |
| `Calendar.NextDay` | AutoCreate.go:122 | adding one day to a valid date gives a valid, later date |
| `Calendar.NextDayIsSuccessor` | AutoCreate.go:122 | no valid date lies strictly between a date and its next day |
| `Calendar.NextDayRollover` | AutoCreate.go:122 | month-end, year-end and February rollover, with the 4/100/400 leap rules |
| `Calendar.FormatDateLayout` | AutoCreate.go:123 | for years 0..9999 the rendering is 8 digits: year, month and day, zero-padded |
| `Calendar.ParseFormatDate` | AutoCreate.go:123 | the 8-digit rendering reads back as the same date, so distinct dates give distinct suffixes |
| `Calendar.FormatExample` | AutoCreate.go:123 | 2024-06-15 renders as `20240615`; year 987 is zero-padded to `0987` |
| `Responses.ExistsOutcome` | AutoCreate.go:166-177 | a 404 means absent, any other status above 299 is an error carrying the status, every other status means present, and a transport failure is passed through |
| `Responses.CreateOutcome` | AutoCreate.go:189-204 | success iff the status is not an error or the reply is a 400 containing `resource_already_exists_exception`; other error statuses give an error carrying status and body; transport failures pass through |
| `Responses.ConflictIsSuccess` | AutoCreate.go:195-201 | a 400 conflict with the marker anywhere in the body is read exactly like a 200; the marker under any other error status, or a 400 without it, is a failure |
| `Client.Cluster.constructor` | AutoCreate.go:112 | a fresh client holds the given reply script and has received no request |
| `Client.Cluster.Send` | AutoCreate.go:166 | one round trip appends the request to the log and consumes the next scripted reply (no reply once the script is used up) |
| `Templates.SettingsOf` | AutoCreate.go:17-76 | every template has 5 shards, 1 replica, a 30s refresh, a 512m flush threshold, async durability and an `epoch_millis` date field |
| `Templates.SettingsDistinct` | AutoCreate.go:17-76 | the three documents differ only in the name of their date field, and no two templates share a document |
| `Templates.ContainsAny` | AutoCreate.go:221-228 | true iff some entry of the list is a substring of the item |
| `Templates.EmptyEntryMatchesEverything` | AutoCreate.go:221-228 | a list holding `""` matches every name |
| `Templates.SelectTemplate` | AutoCreate.go:143-150 | Special iff the special list matches; Query iff it does not and the query list does; Default iff neither matches |
| `Templates.UnsetSpecialListSelectsSpecial` | AutoCreate.go:118-146 | with the special-list variable empty, every name gets Special whatever the query list |
| `Templates.SingletonList` | AutoCreate.go:221-228 | a one-entry list matches exactly when that entry is a substring |
| `Templates.SpecialExample` | AutoCreate.go:144-145 | `metrics20240615` with special list `[metrics]` selects Special |
| `Templates.QueryExample` | AutoCreate.go:146-147 | `audit20240615` with query list `[audit]` selects Query |
| `Templates.DefaultExample` | AutoCreate.go:148-149 | `orders20240615` matching neither list selects Default |
| `Templates.SubstringMatchExample` | AutoCreate.go:143-150 | a special entry in the middle of the name selects Special, even when a query entry also occurs |
| `Retrying.RetryFromShape` | AutoCreate.go:207-219 | the full run shape: no call iff no attempt is left; else every call but the last fails, the result is the last call's outcome, failure happens only after all attempts, and there is one sleep between consecutive calls |
| `Retrying.RetryBounds` | AutoCreate.go:208-213 | at most `attempts` calls and at most `attempts - 1` sleeps |
| `Retrying.RetryStopsAtFirstSuccess` | AutoCreate.go:209-216 | success iff some allowed attempt succeeds; when it does, the successful call is the last one made and every earlier call failed |
| `Retrying.RetryReturnsLastError` | AutoCreate.go:209-214 | when all attempts fail: exactly `attempts` calls, `attempts - 1` sleeps, and the error of the last call |
| `Retrying.RetryWithoutAttempts` | AutoCreate.go:218 | `attempts <= 0` makes no call, no sleep, and returns the exhaustion error |
| `Retrying.RetrySleepsAtMostFourSeconds` | AutoCreate.go:77-78 | with retryCount 3 and a 2 s interval, at most 4 s are spent sleeping |
| `Retrying.FailTwiceThenSucceed` | AutoCreate.go:207-217 | two failures then a success: success after 3 calls and 2 sleeps |
| `Retrying.Retry` | AutoCreate.go:207-219 | the loop returns the result and sleep count of `RunRetry` on the replies the cluster gives; it sends the request once per call and consumes one reply per call |
| `Provisioner.CreateIndexes` | AutoCreate.go:128-160 | the loop leaves the cluster's replies and log, and returns the outcomes, exactly as the fold `Provision` of `ProvisionStep` over the names |
| `Provisioner.StepAppends` | AutoCreate.go:129-159 | each name appends one outcome about itself, and requests are only ever appended to the log |
| `Provisioner.StepCreatesIffAbsent` | AutoCreate.go:136-158 | a creation is requested iff the retried check ended without error and said absent; all requests in the step are about the name; creations carry the selected template; the outcome records how the check went |
| `Provisioner.StepOutcomeAfterCreation` | AutoCreate.go:142-157 | after a check that said absent, the name is Created with the selected template iff the retried creation succeeded, and otherwise gets CreateError carrying that creation's final error |
| `Provisioner.ExistingIndexIsLeftAlone` | AutoCreate.go:140-141 | an existing index costs one check and no creation, and is reported as already existing |
| `Provisioner.AbsentIndexIsCreated` | AutoCreate.go:142-154 | an absent index whose first creation succeeds gets one check and one creation with the selected template |
| `Provisioner.ConflictCountsAsCreated` | AutoCreate.go:152-154 | a creation answered with the 400 conflict is reported as created, just as after a 200 |
| `Provisioner.CheckFailureSkipsCreation` | AutoCreate.go:136-139 | three failed checks skip the name with the last check's error, and nothing is created |
| `Provisioner.CreateFailureIsReported` | AutoCreate.go:152-157 | three failed creations are reported with the last creation error, after one check and three creation requests |
| `Provisioner.OneOutcomePerName` | AutoCreate.go:129-159 | every name gets exactly one outcome, in order, whatever happened to earlier names; the request log only grows |
| `Provisioner.IndexNames` | AutoCreate.go:120-124 | one name per prefix, in order, each the prefix followed by tomorrow's rendered date |
| `Provisioner.IndexNameLayout` | AutoCreate.go:122-123 | a name is its prefix followed by 8 digits that read back as tomorrow's date |
| `Provisioner.AddIndex` | AutoCreate.go:118-125 | the loop over prefixes leaves the cluster and returns outcomes exactly as `Provision` over the names of all prefixes, with the split lists |
| `Provisioner.AddIndexCoversEveryPrefix` | AutoCreate.go:120-125 | a run gives exactly one outcome per configured prefix, empty pieces included, in order, for that prefix's name |
| `Provisioner.SinglePrefixRun` | AutoCreate.go:118-154 | one prefix and an absent index: one check and one creation of tomorrow's name with the template its lists select |
| `Provisioner.TomorrowsLogsIndex` | AutoCreate.go:120-123 | prefix `logs` on 2024-06-14 gives `logs20240615` |
| `Provisioner.EndToEndExample` | AutoCreate.go:118-158 | `INDEXES=logs` on 2024-06-14 with non-matching lists and an absent index creates `logs20240615` with Default |
| `Provisioner.EndToEndWithUnsetLists` | AutoCreate.go:118-158 | the same run with both list variables unset creates it with Special |

## Left out

- Reading the environment and parsing the port with `strconv.Atoi` (AutoCreate.go:85-101) are left out. They are process configuration. The repeated error check at lines 98-101 is dead code.
- Creating the Elasticsearch client is left out (lines 102-116). So are the HTTP transport, basic auth and connection pool. These belong to a foreign library; the `Cluster` class's scripted replies stand in for them.
- The 10-second request timeout (`context.WithTimeout`) has no clock here. A call that times out, or a transport error, appears as an `Unreachable` reply. The model also gives that reply once the script is used up.
- Reading the response body is modelled as always succeeding. The source ignores the `io.ReadAll` error and treats the body as text.
- Cron scheduling and `main` (lines 230-249) are left out. So is any overlap between scheduled runs: that is the scheduler's concurrency, not this job's logic.
- `time.Now` and time zones are left out. `today` is a calendar date passed in, and `AddDate` is modelled as a plain calendar next-day, with no daylight-saving effects. The 8-digit layout is proved for years 0..9999; `PaddedInt` models wider and negative years as Go renders them.
- Go's `strings.Contains` and `strings.Split` work on bytes, while the model's strings are sequences of characters. The two agree on valid UTF-8 text split on the one-byte separator `,`. An environment value that is not valid UTF-8 is not modelled.
- `time.Sleep` is counted (`Retry`'s `sleeps`), not waited.
- The JSON text of the three template documents is not modelled. What the documents say is modelled as the `Settings` record.
- `fmt.Printf` logging is left out. Each name's `NameOutcome` records which message the source would log. The two success messages of `createIndexWithMapping` (conflict versus a fresh creation) are not told apart. Both are `Created`.
- Retrying.Retry: `retry` takes any closure. The model takes the one shape the source passes in: send one request, then read the reply. The `exists` variable that the check's closure assigns in place is returned as the value of the final `Ok` outcome. After an error the source never reads it.
