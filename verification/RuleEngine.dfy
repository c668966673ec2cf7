/**
 engine/engine.go: rules, first-match decisions and the engine object.  The concurrent
 use of the engine is module EngineConcurrency.
 */
module RuleEngine {
  import opened Bytes

  /** Go's Action is a string; the four constants it names, and any other string the console sends. */
  datatype Action = Allow | Ignore | Alert | Block | Other(name: bytes)

  datatype Decision = Decision(action: Action, rule: bytes)

  const DEFAULT_ALLOW: Decision := Decision(Allow, Ascii("default-allow"))

  /** A rule; the pattern is the MatchString of a compiled regular expression. */
  datatype Rule = Rule(name: bytes, action: Action, pattern: Option<bytes -> bool>,
                       users: seq<bytes>, databases: seq<bytes>)

  datatype Query = Query(sql: bytes, username: bytes, database: bytes)

  /** strings.EqualFold; left to the caller, since nothing here depends on Unicode case tables. */
  type Fold = (bytes, bytes) -> bool

  predicate Listed(names: seq<bytes>, name: bytes, fold: Fold) {
    names == [] || exists i | 0 <= i < |names| :: fold(names[i], name)
  }

  predicate Matches(r: Rule, q: Query, fold: Fold) {
    && Listed(r.users, q.username, fold)
    && Listed(r.databases, q.database, fold)
    && (r.pattern.Some? ==> r.pattern.value(q.sql))
  }

  /** The decision of the first rule that matches. */
  function FirstMatch(rules: seq<Rule>, q: Query, fold: Fold): Decision {
    if rules == [] then DEFAULT_ALLOW
    else if Matches(rules[0], q, fold) then Decision(rules[0].action, rules[0].name)
    else FirstMatch(rules[1..], q, fold)
  }

  /** FirstMatch is what its name says: rule `i` decides exactly when it matches and none before it does. */
  lemma {:induction false} FirstMatchDecides(rules: seq<Rule>, q: Query, fold: Fold, i: nat)
    requires i <= |rules|
    requires forall j | 0 <= j < i :: !Matches(rules[j], q, fold)
    requires i < |rules| ==> Matches(rules[i], q, fold)
    ensures FirstMatch(rules, q, fold) ==
            if i < |rules| then Decision(rules[i].action, rules[i].name) else Decision(Allow, Ascii("default-allow"))
    decreases i
  {
    if i == 0 {
    } else {
      forall j | 0 <= j < i - 1 ensures !Matches(rules[1..][j], q, fold) {
        assert rules[1..][j] == rules[j+1];
      }
      FirstMatchDecides(rules[1..], q, fold, i - 1);
    }
  }

  // ---- first match and severity ----

  function Severity(a: Action): nat {
    match a
    case Block => 2
    case Alert => 1
    case _ => 0
  }

  /** All block rules stand before all alert rules, and those before the rest. */
  predicate SeverityOrdered(rules: seq<Rule>) {
    forall i, j | 0 <= i < j < |rules| :: Severity(rules[i].action) >= Severity(rules[j].action)
  }

  /** Some matching rule has at least this severity. */
  predicate Reaches(rules: seq<Rule>, q: Query, fold: Fold, severity: nat) {
    exists i | 0 <= i < |rules| :: Matches(rules[i], q, fold) && Severity(rules[i].action) >= severity
  }

  /** In a list of that shape the first match is the most severe one, so no alert rule shadows a block. */
  lemma {:induction false} FirstMatchIsMostSevere(rules: seq<Rule>, q: Query, fold: Fold, severity: nat)
    requires SeverityOrdered(rules) && severity > 0
    ensures Severity(FirstMatch(rules, q, fold).action) >= severity <==> Reaches(rules, q, fold, severity)
    decreases |rules|
  {
    if rules == [] {
    } else {
      var tail := rules[1..];
      if Matches(rules[0], q, fold) {
        assert Severity(rules[0].action) >= severity ==> Reaches(rules, q, fold, severity);
      } else {
        forall i, j | 0 <= i < j < |tail| ensures Severity(tail[i].action) >= Severity(tail[j].action) {
          assert tail[i] == rules[i+1] && tail[j] == rules[j+1];
        }
        FirstMatchIsMostSevere(tail, q, fold, severity);
        if Reaches(tail, q, fold, severity) {
          var i :| 0 <= i < |tail| && Matches(tail[i], q, fold) && Severity(tail[i].action) >= severity;
          assert rules[i+1] == tail[i];
        }
        if Reaches(rules, q, fold, severity) {
          var i :| 0 <= i < |rules| && Matches(rules[i], q, fold) && Severity(rules[i].action) >= severity;
          assert tail[i-1] == rules[i];
        }
      }
    }
  }

  /** The same rules but for what they match. */
  predicate SameNamesAndActions(a: seq<Rule>, b: seq<Rule>) {
    |a| == |b| && forall i | 0 <= i < |a| :: a[i].name == b[i].name && a[i].action == b[i].action
  }

  /** The first match reaches every severity that any matching rule reaches. */
  predicate FirstIsMostSevere(rules: seq<Rule>, q: Query, fold: Fold, severity: nat) {
    Severity(FirstMatch(rules, q, fold).action) >= severity <==> Reaches(rules, q, fold, severity)
  }

  ghost predicate NeverShadows(rules: seq<Rule>) {
    forall variant, q, fold, severity: nat | SameNamesAndActions(variant, rules) && severity > 0 ::
      FirstIsMostSevere(variant, q, fold, severity)
  }

  /** The rule list in which exactly the rules `i` and `j` match, and they match everything. */
  function OnlyMatching(rules: seq<Rule>, i: nat, j: nat): seq<Rule> {
    seq(|rules|, k requires 0 <= k < |rules| =>
      Rule(rules[k].name, rules[k].action, Some(s => k == i || k == j), [], []))
  }

  /** A less severe rule anywhere in front of a more severe one hides it from some query. */
  lemma EarlierRuleCanShadow(rules: seq<Rule>, i: nat, j: nat, q: Query, fold: Fold)
    requires i < j < |rules| && Severity(rules[i].action) < Severity(rules[j].action)
    ensures
      var variant := OnlyMatching(rules, i, j);
      && SameNamesAndActions(variant, rules)
      && FirstMatch(variant, q, fold) == Decision(rules[i].action, rules[i].name)
      && Reaches(variant, q, fold, Severity(rules[j].action))
  {
    var variant := OnlyMatching(rules, i, j);
    FirstMatchDecides(variant, q, fold, i);
    assert Matches(variant[j], q, fold);
  }

  /** The order is needed as well as enough: the first match is the most severe one whatever the rules match
      exactly when block rules stand before alert rules and those before the rest. */
  lemma OrderedExactlyWhenNothingShadows(rules: seq<Rule>)
    ensures SeverityOrdered(rules) <==> NeverShadows(rules)
  {
    if SeverityOrdered(rules) {
      forall variant, q, fold, severity: nat | SameNamesAndActions(variant, rules) && severity > 0
        ensures FirstIsMostSevere(variant, q, fold, severity)
      {
        FirstMatchIsMostSevere(variant, q, fold, severity);
      }
    } else {
      var i, j :| 0 <= i < j < |rules| && Severity(rules[i].action) < Severity(rules[j].action);
      var q, fold: Fold := Query([], [], []), (a, b) => false;
      EarlierRuleCanShadow(rules, i, j, q, fold);
      assert !FirstIsMostSevere(OnlyMatching(rules, i, j), q, fold, Severity(rules[j].action));
    }
  }

  // ---- the program ----

  datatype Meta = Meta(source: bytes, connID: nat, seqNo: nat, tokens: seq<bytes>)

  datatype Event = Event(action: Action, rule: bytes, sql: bytes, meta: Meta)

  /** The event a decision sends to a sink: none when it is to be ignored. */
  function EventOf(d: Decision, sql: bytes, meta: Meta): seq<Event> {
    if d.action == Ignore then [] else [Event(d.action, d.rule, sql, meta)]
  }

  method ListedLoop(names: seq<bytes>, name: bytes, fold: Fold) returns (found: bool)
    requires names != []
    ensures found == Listed(names, name, fold)
  {
    found := false;
    for i := 0 to |names|
      invariant !found && forall j | 0 <= j < i :: !fold(names[j], name)
    {
      if fold(names[i], name) {
        found := true;
        break;
      }
    }
  }

  /** A rule matches when its users are empty or list the user, its databases are empty or list the database, and it has
      no pattern or one that matches the text. */
  method RuleMatches(r: Rule, q: Query, fold: Fold) returns (ok: bool)
    ensures ok == Matches(r, q, fold)
    ensures ok <==>
            && (r.users == [] || exists u | u in r.users :: fold(u, q.username))
            && (r.databases == [] || exists d | d in r.databases :: fold(d, q.database))
            && (r.pattern == None || r.pattern.value(q.sql))
  {
    if |r.users| > 0 {
      var found := ListedLoop(r.users, q.username, fold);
      if !found { return false; }
    }
    if |r.databases| > 0 {
      var found := ListedLoop(r.databases, q.database, fold);
      if !found { return false; }
    }
    if r.pattern.Some? {
      return r.pattern.value(q.sql);
    }
    return true;
  }

  /** An event sink that keeps what it is sent. */
  class Sink {
    var events: seq<Event>

    constructor () ensures events == [] { events := []; }

    method Send(e: Event)
      modifies this
      ensures events == old(events) + [e]
    {
      events := events + [e];
    }
  }

  class Engine {
    var rules: seq<Rule>
    var sink: Sink?
    const fold: Fold

    constructor (rules: seq<Rule>, fold: Fold)
      ensures this.rules == rules && sink == null && this.fold == fold
    {
      this.rules, this.sink, this.fold := rules, null, fold;
    }

    method SetSink(s: Sink?)
      modifies `sink
      ensures sink == s
    {
      sink := s;
    }

    method Reload(rules: seq<Rule>)
      modifies `rules
      ensures this.rules == rules
    {
      this.rules := rules;
    }

    method Emit(action: Action, ruleName: bytes, sql: bytes, meta: Meta)
      modifies sink
      ensures sink != null ==>
                sink.events == old(sink.events) + EventOf(Decision(action, ruleName), sql, meta)
      ensures sink != null && action != Ignore ==>
                sink.events == old(sink.events) + [Event(action, ruleName, sql, meta)]
      ensures sink != null && action == Ignore ==> sink.events == old(sink.events)
    {
      if sink != null && action != Ignore {
        sink.Send(Event(action, ruleName, sql, meta));
      }
    }

    method Decide(q: Query) returns (d: Decision)
      ensures d == FirstMatch(rules, q, fold)
    {
      for i := 0 to |rules|
        invariant FirstMatch(rules, q, fold) == FirstMatch(rules[i..], q, fold)
      {
        assert rules[i..][0] == rules[i] && rules[i..][1..] == rules[i+1..];
        var ok := RuleMatches(rules[i], q, fold);
        if ok {
          return Decision(rules[i].action, rules[i].name);
        }
      }
      return DEFAULT_ALLOW;
    }

    method Evaluate(q: Query, meta: Meta) returns (d: Decision)
      modifies sink
      ensures d == FirstMatch(rules, q, fold)
      ensures sink != null ==> sink.events == old(sink.events) + EventOf(d, q.sql, meta)
      ensures sink != null && d.action != Ignore ==>
                sink.events == old(sink.events) + [Event(d.action, d.rule, q.sql, meta)]
      ensures sink != null && d.action == Ignore ==> sink.events == old(sink.events)
    {
      for i := 0 to |rules|
        invariant FirstMatch(rules, q, fold) == FirstMatch(rules[i..], q, fold)
        invariant sink != null ==> sink.events == old(sink.events)
      {
        assert rules[i..][0] == rules[i] && rules[i..][1..] == rules[i+1..];
        var ok := RuleMatches(rules[i], q, fold);
        if ok {
          d := Decision(rules[i].action, rules[i].name);
          if sink != null && d.action != Ignore {
            sink.Send(Event(d.action, d.rule, q.sql, meta));
          }
          return;
        }
      }
      d := DEFAULT_ALLOW;
      if sink != null {
        sink.Send(Event(d.action, d.rule, q.sql, meta));
      }
    }
  }

  /** Deciding first and emitting later sends what Evaluate would have sent, even when the
      rules were replaced in between, as long as the sink was not. */
  method DecideThenEmit(e: Engine, q: Query, meta: Meta, newRules: seq<Rule>) returns (d: Decision)
    modifies e`rules, e.sink
    ensures d == FirstMatch(old(e.rules), q, e.fold)
    ensures e.sink != null ==>
              e.sink.events == old(e.sink.events)
                + (if d.action == Ignore then [] else [Event(d.action, d.rule, q.sql, meta)])
  {
    d := e.Decide(q);
    e.Reload(newRules);
    e.Emit(d.action, d.rule, q.sql, meta);
  }
}
