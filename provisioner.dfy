/** The provisioning run: for every configured prefix, tomorrow's index name;
    for every name, an existence check and, when the index is absent, its
    creation with the template the name selects. Both cluster operations go
    through retry, and a failure for one name never stops the others. */
module Provisioner {
  import opened Strings
  import opened Calendar
  import opened Responses
  import opened Templates
  import opened Client
  import opened Retrying

  /** What becomes of one index name (what the source logs for it). */
  datatype NameOutcome =
    | CheckError(index: string, error: Error)                      // skipped: existence unknown
    | AlreadyExists(index: string)                                 // nothing to do
    | Created(index: string, template: Template)                   // created, or already there (conflict)
    | CreateError(index: string, template: Template, error: Error) // creation failed after retries

  /** The state a run threads from name to name: the cluster's remaining
      replies, the requests it has received and the outcomes so far. */
  datatype Progress = Progress(replies: seq<Reply>, sent: seq<Request>, outcomes: seq<NameOutcome>)

  /** The retried existence check against the given replies. */
  function CheckRun(replies: seq<Reply>): RetryRun<bool>
  {
    RunRetry(RETRY_COUNT, CallsOn(replies, ExistsOutcome))
  }

  /** The retried creation against the given replies. */
  function CreateRun(replies: seq<Reply>): RetryRun<()>
  {
    RunRetry(RETRY_COUNT, CallsOn(replies, CreateOutcome))
  }

  /** One iteration of createIndexes' loop, for `name`. */
  function ProvisionStep(p: Progress, special: seq<string>, query: seq<string>, name: string): Progress
  {
    var check := CheckRun(p.replies);
    var replies := Drop(p.replies, check.calls);
    var sent := p.sent + Repeat(ExistsRequest(name), check.calls);
    match check.result
    case Fail(e) => Progress(replies, sent, p.outcomes + [CheckError(name, e)])
    case Ok(present) =>
      if present then Progress(replies, sent, p.outcomes + [AlreadyExists(name)])
      else
        var t := SelectTemplate(special, query, name);
        var create := CreateRun(replies);
        var outcome := if create.result.Ok? then Created(name, t) else CreateError(name, t, create.result.error);
        Progress(Drop(replies, create.calls), sent + Repeat(CreateRequest(name, t), create.calls),
                 p.outcomes + [outcome])
  }

  /** createIndexes over `names`, in order, starting from `p`. */
  function Provision(names: seq<string>, special: seq<string>, query: seq<string>, p: Progress): Progress
    decreases |names|
  {
    if names == [] then p
    else ProvisionStep(Provision(names[..|names| - 1], special, query, p), special, query, names[|names| - 1])
  }

  /** createIndexes(client, indexNames, specialIndexList, queryIndexList). */
  method CreateIndexes(cluster: Cluster, names: seq<string>, special: seq<string>, query: seq<string>)
    returns (outcomes: seq<NameOutcome>)
    modifies cluster
    ensures Progress(cluster.replies, cluster.sent, outcomes)
         == Provision(names, special, query, Progress(old(cluster.replies), old(cluster.sent), []))
  {
    ghost var start := Progress(cluster.replies, cluster.sent, []);
    outcomes := [];
    for k := 0 to |names|
      invariant Progress(cluster.replies, cluster.sent, outcomes) == Provision(names[..k], special, query, start)
    {
      assert names[..k + 1][..k] == names[..k];
      var name := names[k];
      var present, _ := Retry(RETRY_COUNT, cluster, ExistsRequest(name), ExistsOutcome);
      if present.Fail? {
        outcomes := outcomes + [CheckError(name, present.error)];
        continue;
      }
      if present.value {
        outcomes := outcomes + [AlreadyExists(name)];
      } else {
        var template := SelectTemplate(special, query, name);
        var created, _ := Retry(RETRY_COUNT, cluster, CreateRequest(name, template), CreateOutcome);
        if created.Ok? {
          outcomes := outcomes + [Created(name, template)];
        } else {
          outcomes := outcomes + [CreateError(name, template, created.error)];
        }
      }
    }
    assert names[..|names|] == names;
  }

  // ---------------------------------------------------------------------
  // What one step does

  /** A retried operation with at least one attempt calls at least once. */
  lemma CallsAtLeastOnce<T>(call: nat -> Attempt<T>)
    ensures 1 <= RunRetry(RETRY_COUNT, call).calls <= RETRY_COUNT
  {
    RetryFromShape(RETRY_COUNT, 0, call);
  }

  /** A step adds exactly one outcome, about its own name, and only appends
      to the request log. */
  lemma StepAppends(p: Progress, special: seq<string>, query: seq<string>, name: string)
    ensures var q := ProvisionStep(p, special, query, name);
      && |q.outcomes| == |p.outcomes| + 1 && q.outcomes[..|p.outcomes|] == p.outcomes
      && q.outcomes[|p.outcomes|].index == name
      && |p.sent| < |q.sent| && q.sent[..|p.sent|] == p.sent
  {
    CallsAtLeastOnce(CallsOn(p.replies, ExistsOutcome));
    var q := ProvisionStep(p, special, query, name);
    assert q.sent[..|p.sent|] == p.sent by {
      var check := CheckRun(p.replies);
      var sent := p.sent + Repeat(ExistsRequest(name), check.calls);
      assert sent[..|p.sent|] == p.sent;
      assert q.sent[..|sent|] == sent;
    }
  }

  /** The per-name decision: creation is requested iff the existence check
      ended without error and said "absent"; the step only sends requests
      about `name`, every creation carries the selected template, and the
      name's outcome says which way the check went. */
  lemma StepCreatesIffAbsent(p: Progress, special: seq<string>, query: seq<string>, name: string)
    ensures var q := ProvisionStep(p, special, query, name);
      var check := CheckRun(p.replies).result;
      && |p.sent| < |q.sent| && q.sent[..|p.sent|] == p.sent
      && (forall k :: |p.sent| <= k < |q.sent| ==> q.sent[k].index == name)
      && ((exists k :: |p.sent| <= k < |q.sent| && q.sent[k].CreateRequest?) <==> check == Ok(false))
      && (forall k :: |p.sent| <= k < |q.sent| && q.sent[k].CreateRequest? ==>
            q.sent[k].template == SelectTemplate(special, query, name))
      && q.outcomes[..|p.outcomes|] == p.outcomes && |q.outcomes| == |p.outcomes| + 1
      && q.outcomes[|p.outcomes|].index == name
      && (q.outcomes[|p.outcomes|].CheckError? <==> check.Fail?)
      && (q.outcomes[|p.outcomes|].AlreadyExists? <==> check == Ok(true))
  {
    var check := CheckRun(p.replies);
    CallsAtLeastOnce(CallsOn(p.replies, ExistsOutcome));
    var replies := Drop(p.replies, check.calls);
    var sent := p.sent + Repeat(ExistsRequest(name), check.calls);
    var q := ProvisionStep(p, special, query, name);
    if check.result == Ok(false) {
      var t := SelectTemplate(special, query, name);
      var create := CreateRun(replies);
      CallsAtLeastOnce(CallsOn(replies, CreateOutcome));
      assert q.sent == sent + Repeat(CreateRequest(name, t), create.calls);
      assert q.sent[|sent|].CreateRequest?;
    } else {
      assert q.sent == sent;
    }
  }

  /** After a check that said "absent", the name's outcome is that of the
      retried creation on the replies the check left: Created with the
      selected template iff it succeeded, otherwise CreateError carrying the
      creation's final error. */
  lemma StepOutcomeAfterCreation(p: Progress, special: seq<string>, query: seq<string>, name: string)
    requires CheckRun(p.replies).result == Ok(false)
    ensures var q := ProvisionStep(p, special, query, name);
      var create := CreateRun(Drop(p.replies, CheckRun(p.replies).calls)).result;
      var t := SelectTemplate(special, query, name);
      && |q.outcomes| == |p.outcomes| + 1
      && (q.outcomes[|p.outcomes|].Created? <==> create.Ok?)
      && q.outcomes[|p.outcomes|]
         == (if create.Ok? then Created(name, t) else CreateError(name, t, create.error))
  {
  }

  /** Re-running on an index that exists is a no-op: one existence check, no
      creation, outcome "already exists". */
  lemma ExistingIndexIsLeftAlone(p: Progress, special: seq<string>, query: seq<string>, name: string)
    requires ExistsOutcome(ReplyAt(p.replies, 0)) == Ok(true)
    ensures ProvisionStep(p, special, query, name)
         == Progress(Drop(p.replies, 1), p.sent + [ExistsRequest(name)], p.outcomes + [AlreadyExists(name)])
  {
    assert CheckRun(p.replies) == RetryRun(Ok(true), 1, 0);
    assert Repeat(ExistsRequest(name), 1) == [ExistsRequest(name)];
  }

  /** An absent index whose first creation attempt succeeds is created with
      the selected template: one check, one creation. */
  lemma AbsentIndexIsCreated(p: Progress, special: seq<string>, query: seq<string>, name: string)
    requires ExistsOutcome(ReplyAt(p.replies, 0)) == Ok(false)
    requires CreateOutcome(ReplyAt(p.replies, 1)).Ok?
    ensures var t := SelectTemplate(special, query, name);
      ProvisionStep(p, special, query, name)
        == Progress(Drop(p.replies, 2), p.sent + [ExistsRequest(name), CreateRequest(name, t)],
                    p.outcomes + [Created(name, t)])
  {
    var t := SelectTemplate(special, query, name);
    assert CheckRun(p.replies) == RetryRun(Ok(false), 1, 0);
    var replies := Drop(p.replies, 1);
    ReplyAtDrop(p.replies, 1, 0);
    assert CreateOutcome(ReplyAt(replies, 0)) == Ok(());
    assert CreateRun(replies) == RetryRun(Ok(()), 1, 0);
    DropDrop(p.replies, 1, 1);
    assert Repeat(ExistsRequest(name), 1) + Repeat(CreateRequest(name, t), 1)
        == [ExistsRequest(name), CreateRequest(name, t)];
  }

  /** An absent index whose creation meets the "already exists" conflict is
      reported as created, exactly as if this run had created it. */
  lemma ConflictCountsAsCreated(p: Progress, special: seq<string>, query: seq<string>, name: string)
    requires ReplyAt(p.replies, 0).Response? && ReplyAt(p.replies, 0).status == STATUS_NOT_FOUND
    requires IsAlreadyExists(ReplyAt(p.replies, 1))
    ensures var t := SelectTemplate(special, query, name);
      ProvisionStep(p, special, query, name)
        == Progress(Drop(p.replies, 2), p.sent + [ExistsRequest(name), CreateRequest(name, t)],
                    p.outcomes + [Created(name, t)])
  {
    AbsentIndexIsCreated(p, special, query, name);
  }

  /** Fail-skip: when every existence check fails, the name is skipped after
      three checks, with the last check's error, and nothing is created. */
  lemma CheckFailureSkipsCreation(p: Progress, special: seq<string>, query: seq<string>, name: string)
    requires forall j :: 0 <= j < RETRY_COUNT ==> ExistsOutcome(ReplyAt(p.replies, j)).Fail?
    ensures ProvisionStep(p, special, query, name)
         == Progress(Drop(p.replies, 3), p.sent + Repeat(ExistsRequest(name), 3),
                     p.outcomes + [CheckError(name, ExistsOutcome(ReplyAt(p.replies, 2)).error)])
  {
    var call := CallsOn(p.replies, ExistsOutcome);
    RetryReturnsLastError(RETRY_COUNT, call);
  }

  /** A creation that keeps failing is reported with its last error after
      three attempts; the run then goes on with the next name. */
  lemma CreateFailureIsReported(p: Progress, special: seq<string>, query: seq<string>, name: string)
    requires ExistsOutcome(ReplyAt(p.replies, 0)) == Ok(false)
    requires forall j :: 1 <= j <= RETRY_COUNT ==> CreateOutcome(ReplyAt(p.replies, j)).Fail?
    ensures var t := SelectTemplate(special, query, name);
      ProvisionStep(p, special, query, name)
        == Progress(Drop(p.replies, 4), p.sent + [ExistsRequest(name)] + Repeat(CreateRequest(name, t), 3),
                    p.outcomes + [CreateError(name, t, CreateOutcome(ReplyAt(p.replies, 3)).error)])
  {
    assert CheckRun(p.replies) == RetryRun(Ok(false), 1, 0);
    var replies := Drop(p.replies, 1);
    var call := CallsOn(replies, CreateOutcome);
    forall j | 0 <= j < RETRY_COUNT ensures call(j).Fail? {
      ReplyAtDrop(p.replies, 1, j);
    }
    RetryReturnsLastError(RETRY_COUNT, call);
    ReplyAtDrop(p.replies, 1, 2);
    DropDrop(p.replies, 1, 3);
    assert Repeat(ExistsRequest(name), 1) == [ExistsRequest(name)];
  }

  // ---------------------------------------------------------------------
  // What a whole run does

  /** Every name gets exactly one outcome, in order, whatever happened to the
      names before it, and the run only ever adds requests to the log. */
  lemma {:induction false} OneOutcomePerName(names: seq<string>, special: seq<string>, query: seq<string>, p: Progress)
    ensures var q := Provision(names, special, query, p);
      && |q.outcomes| == |p.outcomes| + |names|
      && q.outcomes[..|p.outcomes|] == p.outcomes
      && (forall k :: 0 <= k < |names| ==> q.outcomes[|p.outcomes| + k].index == names[k])
      && |p.sent| + |names| <= |q.sent| && q.sent[..|p.sent|] == p.sent
    decreases |names|
  {
    if names != [] {
      var init := names[..|names| - 1];
      var mid := Provision(init, special, query, p);
      OneOutcomePerName(init, special, query, p);
      StepAppends(mid, special, query, names[|names| - 1]);
      var q := Provision(names, special, query, p);
      assert q == ProvisionStep(mid, special, query, names[|names| - 1]);
      assert q.outcomes[..|p.outcomes|] == mid.outcomes[..|p.outcomes|];
      forall k | 0 <= k < |names| ensures q.outcomes[|p.outcomes| + k].index == names[k] {
        if k < |names| - 1 {
          assert q.outcomes[|p.outcomes| + k] == mid.outcomes[|p.outcomes| + k];
          assert init[k] == names[k];
        } else {
          assert |p.outcomes| + k == |mid.outcomes|;
        }
      }
      assert q.sent[..|p.sent|] == mid.sent[..|p.sent|];
    }
  }

  /** The outcomes gathered before a step do not influence it. */
  lemma StepIgnoresEarlierOutcomes(r: seq<Reply>, s: seq<Request>, o: seq<NameOutcome>,
                                   special: seq<string>, query: seq<string>, name: string)
    ensures var q := ProvisionStep(Progress(r, s, []), special, query, name);
      ProvisionStep(Progress(r, s, o), special, query, name) == Progress(q.replies, q.sent, o + q.outcomes)
  {
  }

  // ---------------------------------------------------------------------
  // AddIndex

  /** The index name for one prefix: the prefix followed by tomorrow's date. */
  function IndexName(prefix: string, today: Date): string
    requires Valid(today)
  {
    prefix + FormatDate(NextDay(today))
  }

  /** One name per configured prefix, in the order of the prefixes. */
  function IndexNames(prefixes: seq<string>, today: Date): (names: seq<string>)
    requires Valid(today)
    ensures |names| == |prefixes|
    ensures forall k :: 0 <= k < |prefixes| ==> names[k] == IndexName(prefixes[k], today)
  {
    if prefixes == [] then []
    else IndexNames(prefixes[..|prefixes| - 1], today) + [IndexName(prefixes[|prefixes| - 1], today)]
  }

  /** An index name is its prefix followed by the eight digits YYYYMMDD of
      the day after `today` (for four-digit years), which can be read back. */
  lemma IndexNameLayout(prefix: string, today: Date)
    requires Valid(today) && 0 <= NextDay(today).year <= 9999
    ensures var name := IndexName(prefix, today);
      && |name| == |prefix| + 8
      && name[..|prefix|] == prefix
      && AllDigits(name[|prefix|..])
      && ParseDate(name[|prefix|..]) == Some(NextDay(today))
  {
    var name := IndexName(prefix, today);
    assert name[|prefix|..] == FormatDate(NextDay(today));
    FormatDateLayout(NextDay(today));
    ParseFormatDate(NextDay(today));
  }

  /** The whole AddIndex run, from the three configuration variables. */
  function AddIndexRun(today: Date, indexesVar: string, specialVar: string, queryVar: string,
                       replies: seq<Reply>, sent: seq<Request>): Progress
    requires Valid(today)
  {
    Provision(IndexNames(Split(indexesVar, ','), today), Split(specialVar, ','), Split(queryVar, ','),
              Progress(replies, sent, []))
  }

  /** AddIndex with the clock reading `today` and the configuration variables
      INDEXES, SpecialList and QueryList already read. */
  method AddIndex(cluster: Cluster, today: Date, indexesVar: string, specialVar: string, queryVar: string)
    returns (outcomes: seq<NameOutcome>)
    requires Valid(today)
    modifies cluster
    ensures Progress(cluster.replies, cluster.sent, outcomes)
         == AddIndexRun(today, indexesVar, specialVar, queryVar, old(cluster.replies), old(cluster.sent))
  {
    var special := Split(specialVar, ',');
    var query := Split(queryVar, ',');
    var indexes := Split(indexesVar, ',');
    ghost var start := Progress(cluster.replies, cluster.sent, []);
    ghost var names := IndexNames(indexes, today);
    outcomes := [];
    for k := 0 to |indexes|
      invariant Progress(cluster.replies, cluster.sent, outcomes) == Provision(names[..k], special, query, start)
    {
      var indexDate := NextDay(today);
      var indexName := indexes[k] + FormatDate(indexDate);
      assert indexName == names[k];
      ghost var before := Progress(cluster.replies, cluster.sent, outcomes);
      var o := CreateIndexes(cluster, [indexName], special, query);
      assert [indexName][..0] == [];
      StepIgnoresEarlierOutcomes(before.replies, before.sent, outcomes, special, query, indexName);
      outcomes := outcomes + o;
      assert names[..k + 1][..k] == names[..k];
    }
    assert names[..|indexes|] == names;
  }

  /** Every configured prefix, empty pieces included, gets exactly one outcome
      for its own name, in the order of INDEXES. */
  lemma AddIndexCoversEveryPrefix(today: Date, indexesVar: string, specialVar: string, queryVar: string,
                                  replies: seq<Reply>, sent: seq<Request>)
    requires Valid(today)
    ensures var prefixes := Split(indexesVar, ',');
      var q := AddIndexRun(today, indexesVar, specialVar, queryVar, replies, sent);
      && |q.outcomes| == |prefixes|
      && forall k :: 0 <= k < |prefixes| ==> q.outcomes[k].index == IndexName(prefixes[k], today)
  {
    var names := IndexNames(Split(indexesVar, ','), today);
    OneOutcomePerName(names, Split(specialVar, ','), Split(queryVar, ','), Progress(replies, sent, []));
  }

  /** A run configured with one prefix, against a cluster where the index is
      absent and the first creation succeeds: one check and one creation of
      tomorrow's name, with the template its lists select. */
  lemma SinglePrefixRun(today: Date, prefix: string, specialVar: string, queryVar: string, replies: seq<Reply>)
    requires Valid(today) && ',' !in prefix
    requires ExistsOutcome(ReplyAt(replies, 0)) == Ok(false)
    requires CreateOutcome(ReplyAt(replies, 1)).Ok?
    ensures var name := IndexName(prefix, today);
      var t := SelectTemplate(Split(specialVar, ','), Split(queryVar, ','), name);
      AddIndexRun(today, prefix, specialVar, queryVar, replies, [])
        == Progress(Drop(replies, 2), [ExistsRequest(name), CreateRequest(name, t)], [Created(name, t)])
  {
    var name := IndexName(prefix, today);
    SplitAfterPiece(prefix, "", ',');
    var names := IndexNames([prefix], today);
    assert names == [name];
    var start := Progress(replies, [], []);
    var special, query := Split(specialVar, ','), Split(queryVar, ',');
    assert Provision(names, special, query, start) == ProvisionStep(start, special, query, name) by {
      assert names[..0] == [];
    }
    AbsentIndexIsCreated(start, special, query, name);
  }

  lemma TomorrowsLogsIndex()
    ensures IndexName("logs", Date(2024, 6, 14)) == "logs20240615"
  {
    NextDayRollover();
    FormatExample();
  }

  /** The end-to-end example: INDEXES=logs on 2024-06-14 provisions
      logs20240615; when the cluster says it is absent, it is created with the
      Default template because neither list matches. */
  lemma EndToEndExample()
    ensures AddIndexRun(Date(2024, 6, 14), "logs", "metrics", "audit",
                        [Response(404, ""), Response(200, "")], [])
         == Progress([], [ExistsRequest("logs20240615"), CreateRequest("logs20240615", Default)],
                     [Created("logs20240615", Default)])
  {
    var replies := [Response(404, ""), Response(200, "")];
    SinglePrefixRun(Date(2024, 6, 14), "logs", "metrics", "audit", replies);
    TomorrowsLogsIndex();
    LogsGetsDefault();
  }

  lemma LogsGetsDefault()
    ensures SelectTemplate(Split("metrics", ','), Split("audit", ','), "logs20240615") == Default
  {
    SplitAfterPiece("metrics", "", ',');
    SplitAfterPiece("audit", "", ',');
    var name := "logs20240615";
    assert !Contains(name, "metrics") && !Contains(name, "audit") by {
      assert forall k :: 0 <= k < |name| ==> name[k] != 'm' && name[k] != 'a';
      FirstCharAbsent(name, "metrics");
      FirstCharAbsent(name, "audit");
    }
    SingletonList("metrics", name);
    SingletonList("audit", name);
  }

  /** The same run with SpecialList and QueryList unset: both split to [""],
      which occurs in every name, so the index gets the Special template. */
  lemma EndToEndWithUnsetLists()
    ensures AddIndexRun(Date(2024, 6, 14), "logs", "", "",
                        [Response(404, ""), Response(200, "")], [])
         == Progress([], [ExistsRequest("logs20240615"), CreateRequest("logs20240615", Special)],
                     [Created("logs20240615", Special)])
  {
    var replies := [Response(404, ""), Response(200, "")];
    SinglePrefixRun(Date(2024, 6, 14), "logs", "", "", replies);
    TomorrowsLogsIndex();
    UnsetSpecialListSelectsSpecial("", "logs20240615");
  }
}
