/**
 From the bytes of a MongoDB client message to the decision of the default rules: the
 parsers of protocol/mongodb, the rule string and engine/mongodb_rules.go taken together.
 */
module MongoDecision {
  import opened Bytes
  import opened Streams
  import opened Bson
  import opened BsonWalk
  import opened EmptyScan
  import OperatorScan
  import opened MongoMessages
  import opened RuleEngine
  import opened MongoRules

  // ---- what the default rules decide on a rule string ----

  const HAS: bytes := Ascii("HAS:")

  const BLOCKED: seq<bytes> :=
    [Ascii("drop"), Ascii("dropDatabase"), Ascii("createUser"), Ascii("dropUser"), Ascii("updateUser"),
     Ascii("grantRolesToUser"), Ascii("revokeRolesFromUser")]

  const WATCHED: seq<bytes> := [Ascii("listDatabases"), Ascii("listCollections"), Ascii("mapReduce")]

  predicate NamedByOneOf(names: seq<bytes>, cmd: bytes) {
    exists n | n in names :: NamedBy(n, cmd)
  }

  /** The rule string shows a script operator or a missing filter. */
  predicate ShowsFinding(s: bytes) {
    Contains(s, HAS + WHERE) || Contains(s, HAS + FUNCTION) || Contains(s, HAS + ACCUMULATOR)
    || MatchString(EMPTY_FILTER_WORD, s)
  }

  function Verdict(c: CommandInfo, username: bytes, database: bytes, fold: Fold): Decision {
    FirstMatch(DefaultMongoDBRules(), Query(RuleString(c), username, database), fold)
  }

  lemma LiteralsAreFlags()
    ensures Ascii("HAS:$where") == HAS + WHERE
    ensures Ascii("HAS:$function") == HAS + FUNCTION
    ensures Ascii("HAS:$accumulator") == HAS + ACCUMULATOR
  {
    AsciiOfConcat("HAS:", "$where");
    AsciiOfConcat("HAS:", "$function");
    AsciiOfConcat("HAS:", "$accumulator");
    assert "HAS:" + "$where" == "HAS:$where";
    assert "HAS:" + "$function" == "HAS:$function";
    assert "HAS:" + "$accumulator" == "HAS:$accumulator";
  }

  lemma DetailsAreSeparated(c: CommandInfo)
    ensures Separated(Details(c))
  {
  }

  lemma AsciiLetters(s: string)
    requires s != "" && forall i | 0 <= i < |s| :: 'a' <= s[i] <= 'z' || 'A' <= s[i] <= 'Z'
    ensures Ascii(s) != [] && Letters(Ascii(s))
  {
  }

  lemma NamesAreLetters()
    ensures forall n | n in BLOCKED + WATCHED :: n != [] && Letters(n)
  {
    hide Ascii, Letters;
    AsciiLetters("drop");
    AsciiLetters("dropDatabase");
    AsciiLetters("createUser");
    AsciiLetters("dropUser");
    AsciiLetters("updateUser");
    AsciiLetters("grantRolesToUser");
    AsciiLetters("revokeRolesFromUser");
    AsciiLetters("listDatabases");
    AsciiLetters("listCollections");
    AsciiLetters("mapReduce");
  }

  /** The pattern of a command rule, on a rendered command. */
  lemma CommandRuleMeaning(names: seq<bytes>, c: CommandInfo)
    requires forall n | n in names :: n in BLOCKED + WATCHED
    ensures MatchString(Command(names), RuleString(c)) <==> NamedByOneOf(names, c.command)
  {
    NamesAreLetters();
    DetailsAreSeparated(c);
    CommandPatternMeaning(names, c.command, Details(c));
  }

  predicate RuleHits(i: nat, c: CommandInfo, username: bytes, database: bytes, fold: Fold)
    requires i < 10
  {
    Matches(DefaultMongoDBRules()[i], Query(RuleString(c), username, database), fold)
  }

  /** When each of the ten rules matches a rendered command. */
  lemma RuleHitsMeaning(c: CommandInfo, username: bytes, database: bytes, fold: Fold)
    ensures RuleHits(0, c, username, database, fold) <==> Contains(RuleString(c), HAS + WHERE)
    ensures RuleHits(1, c, username, database, fold) <==>
            Contains(RuleString(c), HAS + FUNCTION) || Contains(RuleString(c), HAS + ACCUMULATOR)
    ensures RuleHits(4, c, username, database, fold) <==> MatchString(EMPTY_FILTER_WORD, RuleString(c))
    ensures RuleHits(2, c, username, database, fold) || RuleHits(3, c, username, database, fold)
            || RuleHits(5, c, username, database, fold) || RuleHits(6, c, username, database, fold)
            <==> NamedByOneOf(BLOCKED, c.command)
    ensures RuleHits(7, c, username, database, fold) || RuleHits(8, c, username, database, fold)
            || RuleHits(9, c, username, database, fold)
            <==> NamedByOneOf(WATCHED, c.command)
  {
    hide RuleString, MatchString, Contains, Ascii, NamedBy, Command;
    LiteralsAreFlags();
    var s := RuleString(c);
    PlainPatternIsSubstring([Ascii("HAS:$where")], s);
    PlainPatternIsSubstring([Ascii("HAS:$function"), Ascii("HAS:$accumulator")], s);
    assert Ascii("HAS:$function") in [Ascii("HAS:$function"), Ascii("HAS:$accumulator")];
    assert Ascii("HAS:$accumulator") in [Ascii("HAS:$function"), Ascii("HAS:$accumulator")];
    assert Ascii("HAS:$where") in [Ascii("HAS:$where")];
    CommandRulesMeaning(c);
  }

  lemma CommandRulesMeaning(c: CommandInfo)
    ensures
      var s := RuleString(c);
      (|| MatchString(Command([Ascii("drop")]), s)
       || MatchString(Command([Ascii("dropDatabase")]), s)
       || MatchString(Command([Ascii("createUser"), Ascii("dropUser"), Ascii("updateUser")]), s)
       || MatchString(Command([Ascii("grantRolesToUser"), Ascii("revokeRolesFromUser")]), s))
      <==> NamedByOneOf(BLOCKED, c.command)
    ensures
      var s := RuleString(c);
      (|| MatchString(Command([Ascii("listDatabases")]), s)
       || MatchString(Command([Ascii("listCollections")]), s)
       || MatchString(Command([Ascii("mapReduce")]), s))
      <==> NamedByOneOf(WATCHED, c.command)
  {
    hide RuleString, MatchString, Ascii, NamedBy, Command;
    forall names: seq<bytes> | forall n | n in names :: n in BLOCKED + WATCHED
      ensures MatchString(Command(names), RuleString(c)) <==> NamedByOneOf(names, c.command)
    {
      CommandRuleMeaning(names, c);
    }
    var drop, users, roles := [Ascii("drop")], [Ascii("createUser"), Ascii("dropUser"), Ascii("updateUser")],
                              [Ascii("grantRolesToUser"), Ascii("revokeRolesFromUser")];
    assert BLOCKED == drop + [Ascii("dropDatabase")] + users + roles;
    assert WATCHED == [Ascii("listDatabases")] + [Ascii("listCollections")] + [Ascii("mapReduce")];
  }

  /** The default decision on any rendered command: block exactly when the rule string shows a finding or the
      command is one of the blocked ones, otherwise alert exactly when it is a watched one, otherwise allow. */
  lemma VerdictMeaning(c: CommandInfo, username: bytes, database: bytes, fold: Fold)
    ensures
      var v := Verdict(c, username, database, fold);
      v.action ==
        if ShowsFinding(RuleString(c)) || NamedByOneOf(BLOCKED, c.command) then Block
        else if NamedByOneOf(WATCHED, c.command) then Alert
        else Allow
    ensures Verdict(c, username, database, fold) == Decision(Block, Ascii("nosqli-where-js"))
            <==> Contains(RuleString(c), HAS + WHERE)
  {
    hide RuleString, MatchString, Contains, Ascii, NamedBy, Matches;
    RuleHitsMeaning(c, username, database, fold);
    var rules, q := DefaultMongoDBRules(), Query(RuleString(c), username, database);
    var i := FirstHit(rules, q, fold);
    FirstMatchDecides(rules, q, fold, i);
    assert forall k: nat | k < 10 :: Matches(rules[k], q, fold) == RuleHits(k, c, username, database, fold);
  }

  /** What a rule string and a command name are decided to be, rule by rule in order. */
  function ExpectedDecision(where: bool, script: bool, unfiltered: bool, cmd: bytes): Decision {
    if where then Decision(Block, Ascii("nosqli-where-js"))
    else if script then Decision(Block, Ascii("nosqli-function-js"))
    else if NamedBy(Ascii("drop"), cmd) then Decision(Block, Ascii("ddl-drop-collection"))
    else if NamedBy(Ascii("dropDatabase"), cmd) then Decision(Block, Ascii("ddl-drop-database"))
    else if unfiltered then Decision(Block, Ascii("mass-operation-no-filter"))
    else if NamedBy(Ascii("createUser"), cmd) || NamedBy(Ascii("dropUser"), cmd) || NamedBy(Ascii("updateUser"), cmd)
    then Decision(Block, Ascii("privesc-user-mgmt"))
    else if NamedBy(Ascii("grantRolesToUser"), cmd) || NamedBy(Ascii("revokeRolesFromUser"), cmd)
    then Decision(Block, Ascii("privesc-grant-roles"))
    else if NamedBy(Ascii("listDatabases"), cmd) then Decision(Alert, Ascii("recon-list-databases"))
    else if NamedBy(Ascii("listCollections"), cmd) then Decision(Alert, Ascii("recon-list-collections"))
    else if NamedBy(Ascii("mapReduce"), cmd) then Decision(Alert, Ascii("mapreduce-js"))
    else Decision(Allow, Ascii("default-allow"))
  }

  /** The command patterns one by one. */
  lemma EachCommandRule(c: CommandInfo)
    ensures
      var s, cmd := RuleString(c), c.command;
      && (MatchString(Command([Ascii("drop")]), s) <==> NamedBy(Ascii("drop"), cmd))
      && (MatchString(Command([Ascii("dropDatabase")]), s) <==> NamedBy(Ascii("dropDatabase"), cmd))
      && (MatchString(Command([Ascii("createUser"), Ascii("dropUser"), Ascii("updateUser")]), s) <==>
            NamedBy(Ascii("createUser"), cmd) || NamedBy(Ascii("dropUser"), cmd) || NamedBy(Ascii("updateUser"), cmd))
      && (MatchString(Command([Ascii("grantRolesToUser"), Ascii("revokeRolesFromUser")]), s) <==>
            NamedBy(Ascii("grantRolesToUser"), cmd) || NamedBy(Ascii("revokeRolesFromUser"), cmd))
      && (MatchString(Command([Ascii("listDatabases")]), s) <==> NamedBy(Ascii("listDatabases"), cmd))
      && (MatchString(Command([Ascii("listCollections")]), s) <==> NamedBy(Ascii("listCollections"), cmd))
      && (MatchString(Command([Ascii("mapReduce")]), s) <==> NamedBy(Ascii("mapReduce"), cmd))
  {
    hide RuleString, MatchString, Ascii, NamedBy, Command;
    OneOfThree(c, [Ascii("drop")]);
    OneOfThree(c, [Ascii("dropDatabase")]);
    OneOfThree(c, [Ascii("createUser"), Ascii("dropUser"), Ascii("updateUser")]);
    OneOfThree(c, [Ascii("grantRolesToUser"), Ascii("revokeRolesFromUser")]);
    OneOfThree(c, [Ascii("listDatabases")]);
    OneOfThree(c, [Ascii("listCollections")]);
    OneOfThree(c, [Ascii("mapReduce")]);
  }

  lemma OneOfThree(c: CommandInfo, names: seq<bytes>)
    requires 1 <= |names| <= 3 && forall n | n in names :: n in BLOCKED + WATCHED
    ensures MatchString(Command(names), RuleString(c)) <==>
            || NamedBy(names[0], c.command) || (|names| > 1 && NamedBy(names[1], c.command))
            || (|names| > 2 && NamedBy(names[2], c.command))
  {
    hide RuleString, MatchString, NamedBy, Command;
    CommandRuleMeaning(names, c);
    assert forall i | 0 <= i < |names| :: names[i] in names;
  }

  /** When each of the ten rules matches, one by one. */
  lemma EachRuleHits(c: CommandInfo, username: bytes, database: bytes, fold: Fold)
    ensures
      var (cmd, hits) := (c.command, (i: nat) requires i < 10 => RuleHits(i, c, username, database, fold));
      && (hits(2) <==> NamedBy(Ascii("drop"), cmd))
      && (hits(3) <==> NamedBy(Ascii("dropDatabase"), cmd))
      && (hits(5) <==> NamedBy(Ascii("createUser"), cmd) || NamedBy(Ascii("dropUser"), cmd)
                       || NamedBy(Ascii("updateUser"), cmd))
      && (hits(6) <==> NamedBy(Ascii("grantRolesToUser"), cmd) || NamedBy(Ascii("revokeRolesFromUser"), cmd))
      && (hits(7) <==> NamedBy(Ascii("listDatabases"), cmd))
      && (hits(8) <==> NamedBy(Ascii("listCollections"), cmd))
      && (hits(9) <==> NamedBy(Ascii("mapReduce"), cmd))
  {
    hide RuleString, MatchString, Contains, Ascii, NamedBy, Command;
    EachCommandRule(c);
  }

  /** The default decision in full, action and rule, on any rendered command. */
  lemma DecisionMeaning(c: CommandInfo, username: bytes, database: bytes, fold: Fold)
    ensures
      var s := RuleString(c);
      Verdict(c, username, database, fold) ==
        ExpectedDecision(Contains(s, HAS + WHERE), Contains(s, HAS + FUNCTION) || Contains(s, HAS + ACCUMULATOR),
                         MatchString(EMPTY_FILTER_WORD, s), c.command)
  {
    hide RuleString, MatchString, Contains, Ascii, NamedBy, Matches;
    RuleHitsMeaning(c, username, database, fold);
    EachRuleHits(c, username, database, fold);
    var rules, q := DefaultMongoDBRules(), Query(RuleString(c), username, database);
    var i := FirstHit(rules, q, fold);
    FirstMatchDecides(rules, q, fold, i);
    assert forall k: nat | k < 10 :: Matches(rules[k], q, fold) == RuleHits(k, c, username, database, fold);
  }

  lemma FirstHit(rules: seq<Rule>, q: Query, fold: Fold) returns (i: nat)
    ensures i <= |rules|
    ensures forall j | 0 <= j < i :: !Matches(rules[j], q, fold)
    ensures i < |rules| ==> Matches(rules[i], q, fold)
  {
    i := 0;
    while i < |rules| && !Matches(rules[i], q, fold)
      invariant i <= |rules|
      invariant forall j | 0 <= j < i :: !Matches(rules[j], q, fold)
    {
      i := i + 1;
    }
  }

  // ---- findings of the scans reach the rule string ----

  lemma {:induction false} FlagIsShown(ops: seq<bytes>, op: bytes)
    requires op in ops
    ensures Contains(Flags(ops), HAS + op)
    decreases ops
  {
    var f, head := Flags(ops), Ascii(" HAS:") + ops[0];
    AtWhole(head, Flags(ops[1..]));
    if ops[0] == op {
      assert Ascii(" HAS:") == Ascii(" ") + HAS by {
        AsciiOfConcat(" ", "HAS:");
        assert " " + "HAS:" == " HAS:";
      }
      assert head == Ascii(" ") + (HAS + op);
      AtSplit(f, 0, Ascii(" "), HAS + op);
    } else {
      FlagIsShown(ops[1..], op);
      ContainsWithin(f, |head|, Flags(ops[1..]), HAS + op);
    }
  }

  lemma DangerousOpIsShown(c: CommandInfo, op: bytes)
    requires op in c.dangerousOps
    ensures Contains(RuleString(c), HAS + op)
  {
    hide Ascii, Contains, At, Flags;
    FlagIsShown(c.dangerousOps, op);
    var front := (if c.database != [] then Ascii(" DB:") + c.database else [])
                 + (if c.collection != [] then Ascii(" COLL:") + c.collection else []);
    var ending := if c.emptyFilter then Ascii(" EMPTY_FILTER") else [];
    var s := RuleString(c);
    assert s == (CMD + c.command + front) + Flags(c.dangerousOps) + ending;
    AtWhole(s, []);
    assert s + [] == s;
    AtSplit3(s, 0, CMD + c.command + front, Flags(c.dangerousOps), ending);
    ContainsWithin(s, |CMD + c.command + front|, Flags(c.dangerousOps), HAS + op);
  }

  /** The text before the EMPTY_FILTER mark. */
  function WithoutMark(c: CommandInfo): bytes { RuleString(c.(emptyFilter := false)) }

  lemma EmptyFilterIsShown(c: CommandInfo)
    requires c.emptyFilter
    ensures RuleString(c) == WithoutMark(c) + Ascii(" EMPTY_FILTER")
    ensures MatchString(EMPTY_FILTER_WORD, RuleString(c))
  {
    hide Ascii, MatchString, Flags;
    var front := (if c.database != [] then Ascii(" DB:") + c.database else [])
                 + (if c.collection != [] then Ascii(" COLL:") + c.collection else [])
                 + Flags(c.dangerousOps);
    assert Details(c) == front + Ascii(" EMPTY_FILTER");
    assert Details(c.(emptyFilter := false)) == front;
    EmptyFilterWordMatches(WithoutMark(c));
  }

  // ---- from the wire ----

  /** The two ways a client sends a command document. */
  datatype Carrier =
    | OpMsg(flags: bytes, sequences: seq<bytes>, tail: bytes)
    | OpQuery(flags: bytes, name: bytes, numbers: bytes, selector: bytes)

  predicate CarrierOK(c: Carrier) {
    match c
    case OpMsg(flags, sequences, _) => |flags| == 4 && forall s | s in sequences :: 4 + |s| < TWO_32
    case OpQuery(flags, name, numbers, _) => |flags| == 4 && NulFree(name) && |numbers| == 8
  }

  function PayloadOf(c: Carrier, d: Document): bytes {
    match c
    case OpMsg(flags, sequences, tail) => flags + EncodeSequences(sequences) + ([0] + Encode(d) + tail)
    case OpQuery(flags, name, numbers, selector) => flags + name + [0] + (numbers + Encode(d) + selector)
  }

  function ClientMessage(requestID: int, c: Carrier, d: Document): bytes {
    EncodeMessage(requestID, 0, if c.OpMsg? then OP_MSG else OP_QUERY, PayloadOf(c, d))
  }

  /** The decision on the first message of a byte stream; None when no command can be read from it. */
  function VerdictOnWire(s: bytes, end: IOError, username: bytes, database: bytes, fold: Fold): Option<Decision> {
    var read := FirstMessage(s, end).0;
    if read.Failure? || PacketInfo(read.value).None? then None
    else Some(Verdict(PacketInfo(read.value).value, username, database, fold))
  }

  /** What reaches the command extraction behind the document itself. */
  function Behind(c: Carrier): bytes { if c.OpMsg? then [] else c.selector }

  /** Reading and extracting a client message gives the command of the document it carries. */
  lemma WireCarriesDocument(requestID: int, c: Carrier, d: Document, rest: bytes, end: IOError)
    requires IsInt32(requestID) && CarrierOK(c) && WellFormed(d)
    requires HEADER + |PayloadOf(c, d)| <= MAX_MESSAGE
    ensures
      var read := FirstMessage(ClientMessage(requestID, c, d) + rest, end);
      && read.0.Success?
      && read.1 == rest
      && PacketInfo(read.0.value) == Some(InfoOf(Encode(d) + Behind(c)))
  {
    hide FirstMessage, InfoOf, SectionsInfo, QueryInfo, WellFormed, Encode, EncodeSequences;
    EncodedMessageIsRead(requestID, 0, if c.OpMsg? then OP_MSG else OP_QUERY, PayloadOf(c, d), rest, end);
    match c
    case OpMsg(flags, sequences, tail) =>
      MsgInfoIsBodyInfo(flags, sequences, d, tail);
      EncodedIsLong(d);
      assert Encode(d) + [] == Encode(d);
    case OpQuery(flags, name, numbers, selector) =>
      QueryInfoIsDocumentInfo(flags, name, numbers, d, selector);
  }

  /** The collection a command document names: the value of its first element, when that is a string. */
  function CollectionOf(d: Document): bytes {
    if d.Element? && d.value.Text? then d.value.text else []
  }

  /** The database it names: the last `$db` string before any element of an unknown type. */
  function DatabaseOf(d: Document): bytes {
    var fields := LastWins(StringFields(d));
    if DB_KEY in fields then fields[DB_KEY] else []
  }

  /** The document, or what follows it, shows a script operator. */
  predicate ShowsOperator(d: Document, tail: bytes, op: bytes) { OperatorScan.Shows(d, op) || Contains(tail, op) }

  /** The extracted command in terms of the document: its first key, the names above, exactly the operators it shows,
      among them all that are keys, and for a delete or update exactly whether the document holds an empty one or
      misleads the scan. */
  lemma InfoOfDocument(d: Document, tail: bytes)
    requires WellFormed(d) && d != End
    ensures
      var info := InfoOf(Encode(d) + tail);
      && info.command == d.key
      && info.collection == CollectionOf(d)
      && info.database == DatabaseOf(d)
      && (forall op | op in DANGEROUS && HasKey(d, op) :: op in info.dangerousOps)
      && (forall op :: op in info.dangerousOps <==> op in DANGEROUS && ShowsOperator(d, tail, op))
      && (info.emptyFilter <==> d.key in {DELETE, UPDATE} && (HoldsEmpty(d) || Misleads(d, tail)))
  {
    hide WellFormed, Encode, First, Recorded, LastWins, HasKey, HoldsEmpty, Ascii, Misleads, HasEmptyFilter, Contains,
         OperatorScan.Shows;
    FirstOfEncoded(d, tail);
    RecordedOfEncoded(d, tail);
    ScansAreComplete(d, tail);
    ScanIsExactly(d, tail);
    forall op | op in DANGEROUS ensures Contains(Encode(d) + tail, op) <==> ShowsOperator(d, tail, op) {
      OperatorScan.OperatorBytes(op);
      OperatorScan.ScanIsExactly(d, tail, op);
    }
  }

  /** A database named behind code, as in a mapReduce, or behind any other value of unknown type is lost. */
  lemma DatabaseBehindUnknownIsLost(command: bytes, first: Value, key: bytes, code: byte, rest: bytes, database: bytes,
                                    tail: bytes)
    requires command != DB_KEY
    requires
      var d := Element(command, first, Element(key, Unsupported(code, rest), Element(DB_KEY, Text(database), End)));
      WellFormed(d)
    ensures
      var d := Element(command, first, Element(key, Unsupported(code, rest), Element(DB_KEY, Text(database), End)));
      (DB_KEY, database) in Strings(d) && InfoOf(Encode(d) + tail).database == []
  {
    hide WellFormed, Encode, InfoOf, Ascii;
    var d := Element(command, first, Element(key, Unsupported(code, rest), Element(DB_KEY, Text(database), End)));
    var last := Element(DB_KEY, Text(database), End);
    assert Strings(last) == [(DB_KEY, database)] + Strings(End);
    assert Strings(d) == (if first.Text? then [(command, first.text)] else []) + Strings(d.next);
    assert Strings(d)[|Strings(d)|-1] == (DB_KEY, database);
    assert StringFields(d.next) == [];
    assert forall i | 0 <= i < |StringFields(d)| :: StringFields(d)[i].0 == command;
    InfoOfDocument(d, tail);
    LastWinsMeaning(StringFields(d), DB_KEY);
  }

  /** A delete or update is taken for one without a filter rightly exactly when it does hold an empty document or
      array, or does not mislead the scan. */
  lemma EmptyFilterIsRightWhen(d: Document, tail: bytes)
    requires WellFormed(d) && d.Element? && d.key in {DELETE, UPDATE}
    ensures InfoOf(Encode(d) + tail).emptyFilter == HoldsEmpty(d) <==> HoldsEmpty(d) || !Misleads(d, tail)
  {
    hide WellFormed, Encode, HoldsEmpty, Misleads, InfoOf;
    InfoOfDocument(d, tail);
  }

  /** The verdict on a message is the verdict on its document's command. */
  lemma VerdictOnMessage(requestID: int, c: Carrier, d: Document, rest: bytes, end: IOError,
                         username: bytes, database: bytes, fold: Fold)
    requires IsInt32(requestID) && CarrierOK(c) && WellFormed(d)
    requires HEADER + |PayloadOf(c, d)| <= MAX_MESSAGE
    ensures VerdictOnWire(ClientMessage(requestID, c, d) + rest, end, username, database, fold)
            == Some(Verdict(InfoOf(Encode(d) + Behind(c)), username, database, fold))
  {
    hide FirstMessage, InfoOf, WellFormed, Encode, PacketInfo, ClientMessage, Verdict;
    WireCarriesDocument(requestID, c, d, rest, end);
  }

  /** `$where` as a key at any depth: the message is blocked, by the rule for it. */
  lemma WhereIsBlocked(requestID: int, c: Carrier, d: Document, rest: bytes, end: IOError,
                       username: bytes, database: bytes, fold: Fold)
    requires IsInt32(requestID) && CarrierOK(c) && WellFormed(d)
    requires HEADER + |PayloadOf(c, d)| <= MAX_MESSAGE
    requires HasKey(d, WHERE)
    ensures VerdictOnWire(ClientMessage(requestID, c, d) + rest, end, username, database, fold)
            == Some(Decision(Block, Ascii("nosqli-where-js")))
  {
    hide InfoOf, WellFormed, Encode, VerdictOnWire, ClientMessage, Verdict, Ascii, RuleString, Contains;
    VerdictOnMessage(requestID, c, d, rest, end, username, database, fold);
    InfoOfDocument(d, Behind(c));
    var info := InfoOf(Encode(d) + Behind(c));
    DangerousOpIsShown(info, WHERE);
    VerdictMeaning(info, username, database, fold);
  }

  /** What the default rules are there to stop, said of the document itself. */
  predicate MustBeBlocked(d: Document) {
    || (exists op | op in DANGEROUS :: HasKey(d, op))
    || (d.Element? && d.key in {DELETE, UPDATE} && HoldsEmpty(d))
    || (d.Element? && NamedByOneOf(BLOCKED, d.key))
  }

  /** Script operators at any depth, a delete or update holding an empty document or array at any depth,
      and the blocked commands: the message is blocked however it is sent. */
  lemma MustBeBlockedIsBlocked(requestID: int, c: Carrier, d: Document, rest: bytes, end: IOError,
                               username: bytes, database: bytes, fold: Fold)
    requires IsInt32(requestID) && CarrierOK(c) && WellFormed(d)
    requires HEADER + |PayloadOf(c, d)| <= MAX_MESSAGE
    requires MustBeBlocked(d)
    ensures
      var v := VerdictOnWire(ClientMessage(requestID, c, d) + rest, end, username, database, fold);
      v.Some? && v.value.action == Block
  {
    hide InfoOf, WellFormed, Encode, VerdictOnWire, ClientMessage, Verdict, Ascii,
         RuleString, Contains, NamedByOneOf, MatchString;
    VerdictOnMessage(requestID, c, d, rest, end, username, database, fold);
    InfoOfDocument(d, Behind(c));
    var info := InfoOf(Encode(d) + Behind(c));
    if op :| op in DANGEROUS && HasKey(d, op) {
      DangerousOpIsShown(info, op);
    } else if info.emptyFilter {
      EmptyFilterIsShown(info);
    }
    VerdictMeaning(info, username, database, fold);
  }

  /** A watched command is at least reported. */
  lemma WatchedIsReported(requestID: int, c: Carrier, d: Document, rest: bytes, end: IOError,
                          username: bytes, database: bytes, fold: Fold)
    requires IsInt32(requestID) && CarrierOK(c) && WellFormed(d)
    requires HEADER + |PayloadOf(c, d)| <= MAX_MESSAGE
    requires d.Element? && NamedByOneOf(WATCHED, d.key)
    ensures
      var v := VerdictOnWire(ClientMessage(requestID, c, d) + rest, end, username, database, fold);
      v.Some? && Severity(v.value.action) >= Severity(Alert)
  {
    hide InfoOf, WellFormed, Encode, VerdictOnWire, ClientMessage, Verdict, Ascii, NamedByOneOf;
    VerdictOnMessage(requestID, c, d, rest, end, username, database, fold);
    InfoOfDocument(d, Behind(c));
    VerdictMeaning(InfoOf(Encode(d) + Behind(c)), username, database, fold);
  }

  /** A delete that holds no empty document or array and is taken for one without a filter. */
  lemma EmptyFilterScanIsNotExact()
    ensures
      var d := Element(DELETE, Text([]), Element([0x6E], Fixed(0x10, [5, 0, 0, 0]), End));
      && WellFormed(d) && !HoldsEmpty(d)
      && InfoOf(Encode(d)).emptyFilter
  {
    var last := Element([0x6E], Fixed(0x10, [5, 0, 0, 0]), End);
    var d := Element(DELETE, Text([]), last);
    assert WellFormed(d) by {
      hide PutLE32;
      assert DELETE == [0x64, 0x65, 0x6C, 0x65, 0x74, 0x65];
      assert ElementsOK(last) by { assert ValueOK(last.value); }
    }
    assert !HoldsEmpty(last);
    FivesForge([0x6E], [0, 0, 0, 0, 0], End, []);
    assert [0] + [] == [0];
    assert Forges(d, [0]);
    assert Encode(d) + [] == Encode(d);
    InfoOfDocument(d, []);
  }
}
