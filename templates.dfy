/** The three settings/mapping documents and the rule that picks one of them
    for an index name. */
module Templates {
  import opened Strings

  datatype Template = Default | Special | Query

  /** The content of a template document: the settings block and the one
      date-typed field of its mapping. */
  datatype Settings = Settings(
    shards: nat, replicas: nat, refreshInterval: string,
    flushThresholdSize: string, durability: string,
    dateField: string, dateType: string, dateFormat: string)

  /** indexSettingsDefault, indexSettingsSpecial and indexSettingsQuery. */
  function SettingsOf(t: Template): (s: Settings)
    ensures s.shards == 5 && s.replicas == 1 && s.refreshInterval == "30s"
    ensures s.flushThresholdSize == "512m" && s.durability == "async"
    ensures s.dateType == "date" && s.dateFormat == "epoch_millis"
  {
    var field := match t
      case Default => "timestamp"
      case Special => "sendTimeStamp"
      case Query => "queryTimeStamp";
    Settings(5, 1, "30s", "512m", "async", field, "date", "epoch_millis")
  }

  /** The documents differ exactly in the name of their date field, and each
      template names a different one. */
  lemma SettingsDistinct(t: Template, u: Template)
    ensures SettingsOf(t) == SettingsOf(u) <==> t == u
    ensures SettingsOf(t).(dateField := "") == SettingsOf(u).(dateField := "")
  {
  }

  /** Some entry of `list` is a substring of `item`. */
  predicate Matches(list: seq<string>, item: string)
  {
    exists k :: 0 <= k < |list| && Contains(item, list[k])
  }

  /** contains(list, item): scans the list in order and stops at the first
      entry that occurs in `item`. */
  function ContainsAny(list: seq<string>, item: string): (r: bool)
    ensures r <==> Matches(list, item)
  {
    if list == [] then false
    else if Contains(item, list[0]) then true
    else
      var r := ContainsAny(list[1..], item);
      assert forall k :: 1 <= k < |list| ==> list[k] == list[1..][k - 1];
      r
  }

  /** A list holding the empty string matches every name; that is the list
      strings.Split makes of an unset or empty variable. */
  lemma {:induction false} EmptyEntryMatchesEverything(list: seq<string>, item: string)
    requires "" in list
    ensures ContainsAny(list, item)
  {
    var k :| 0 <= k < |list| && list[k] == "";
    assert OccursAt(item, "", 0);
  }

  /** The template selection of createIndexes: total, exclusive, and the
      special list takes precedence over the query list. */
  function SelectTemplate(special: seq<string>, query: seq<string>, name: string): (t: Template)
    ensures t == Special <==> Matches(special, name)
    ensures t == Query <==> !Matches(special, name) && Matches(query, name)
    ensures t == Default <==> !Matches(special, name) && !Matches(query, name)
  {
    if ContainsAny(special, name) then Special
    else if ContainsAny(query, name) then Query
    else Default
  }

  /** With the special-list variable unset, every index gets the Special
      template, whatever the query list says. */
  lemma UnsetSpecialListSelectsSpecial(queryVar: string, name: string)
    ensures SelectTemplate(Split("", ','), Split(queryVar, ','), name) == Special
  {
    EmptyEntryMatchesEverything(Split("", ','), name);
  }

  lemma SingletonList(entry: string, item: string)
    ensures ContainsAny([entry], item) == Contains(item, entry)
  {
    assert [entry][1..] == [];
  }

  /** One classification example per template. */
  lemma SpecialExample()
    ensures SelectTemplate(["metrics"], ["audit"], "metrics20240615") == Special
  {
    Found("metrics20240615", "metrics", 0);
  }

  lemma QueryExample()
    ensures SelectTemplate(["metrics"], ["audit"], "audit20240615") == Query
  {
    var name := "audit20240615";
    Found(name, "audit", 0);
    FirstCharAbsent(name, "metrics");
    assert !ContainsAny(["metrics"], name);
    assert ContainsAny(["audit"], name);
  }

  lemma OrdersMatchesNeither()
    ensures !Contains("orders20240615", "metrics") && !Contains("orders20240615", "audit")
  {
    var name := "orders20240615";
    assert forall k :: 0 <= k < |name| ==> name[k] != 'm' && name[k] != 'a';
    FirstCharAbsent(name, "metrics");
    FirstCharAbsent(name, "audit");
  }

  lemma DefaultExample()
    ensures SelectTemplate(["metrics"], ["audit"], "orders20240615") == Default
  {
    OrdersMatchesNeither();
    SingletonList("metrics", "orders20240615");
    SingletonList("audit", "orders20240615");
  }

  /** Matching is by substring anywhere in the name, not by equality or prefix,
      and an entry of the special list wins even when a query entry also occurs. */
  lemma SubstringMatchExample()
    ensures SelectTemplate(["metrics"], ["audit"], "app-metrics-audit") == Special
  {
    var name := "app-metrics-audit";
    assert name[4..11] == "metrics";
    Found(name, "metrics", 4);
  }
}
