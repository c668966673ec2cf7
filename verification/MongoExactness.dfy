/**
 When exactly the default rules block a command, for every byte string taken as its document,
 well formed or not: the names that appear in the rule string cannot forge a script finding.
 */
module MongoExactness {
  import opened Bytes
  import opened Streams
  import opened Bson
  import opened BsonWalk
  import opened EmptyScan
  import opened MongoMessages
  import opened RuleEngine
  import opened MongoRules
  import opened MongoDecision

  // ---- every name the walker yields stands in the bytes ----

  lemma SliceIsContained(data: bytes, i: nat, j: nat)
    requires i <= j <= |data|
    ensures Contains(data, data[i..j])
  {
    assert At(data, i, data[i..j]);
  }

  lemma TextIsContained(data: bytes, pos: nat)
    requires TextAt(data, pos).Some?
    ensures Contains(data, TextAt(data, pos).value)
  {
    SliceIsContained(data, pos + 4, pos + 4 + LE32(data, pos) - 1);
  }

  lemma {:induction false} RecordedIsContained(data: bytes, pos: nat, limit: nat)
    requires limit <= |data|
    ensures forall i | 0 <= i < |Walk(data, pos, limit)| :: Contains(data, Walk(data, pos, limit)[i].1)
    decreases |data| - pos
  {
    hide SkipLength, TextAt, FindNul, Contains, LE32;
    if pos >= limit || data[pos] == 0 || FindNul(data, pos + 1) >= |data| {
    } else {
      var keyEnd := FindNul(data, pos + 1);
      var advance := SkipLength(data, keyEnd + 1, data[pos]);
      if advance >= 0 {
        RecordedIsContained(data, keyEnd + 1 + advance, limit);
        if TextAt(data, keyEnd + 1).Some? { TextIsContained(data, keyEnd + 1); }
      }
    }
  }

  lemma NamesAreContained(bson: bytes)
    ensures
      var info := InfoOf(bson);
      Contains(bson, info.command) && Contains(bson, info.collection) && Contains(bson, info.database)
  {
    hide Contains, TextAt, FindNul, Walk, LastWins, Ascii, HasEmptyFilter, Occurring;
    SliceIsContained(bson, 0, 0);
    assert bson[0..0] == [];
    LastWinsMeaning(Recorded(bson), DB_KEY);
    if DeclaredLength(bson).Some? {
      var limit := DeclaredLength(bson).value - 1;
      RecordedIsContained(bson, 4, limit);
      var pairs := Recorded(bson);
      if DB_KEY in LastWins(pairs) {
        var i :| 0 <= i < |pairs| && pairs[i] == (DB_KEY, LastWins(pairs)[DB_KEY]);
        assert Contains(bson, pairs[i].1);
      }
      var keyEnd := FindNul(bson, 5);
      if keyEnd < |bson| {
        SliceIsContained(bson, 5, keyEnd);
        if TextAt(bson, keyEnd + 1).Some? { TextIsContained(bson, keyEnd + 1); }
      }
    }
  }

  // ---- where a blank-free word can stand in a rule string ----

  predicate BlankFree(t: bytes) { forall i | 0 <= i < |t| :: t[i] != 0x20 }

  /** It cannot reach across a blank. */
  lemma NotAcrossBlank(a: bytes, b: bytes, t: bytes)
    requires t != [] && BlankFree(t) && Separated(b) && Contains(a + b, t)
    ensures Contains(a, t) || Contains(b, t)
  {
    var s := a + b;
    var i :| 0 <= i <= |s| && At(s, i, t);
    AtIsElementwise(s, i, t);
    forall m | i <= m < i + |t| ensures s[m] != 0x20 {
      assert s[i+(m-i)] == t[m-i];
    }
    assert b != [] ==> s[|a|] == b[0];
    if i + |t| <= |a| {
      AtIsElementwise(a, i, t);
      assert At(a, i, t);
    } else {
      assert i >= |a|;
      assert b[i-|a|..i-|a|+|t|] == s[i..i+|t|];
      assert At(b, i - |a|, t);
    }
  }

  /** It cannot start in a text without its first letter. */
  lemma NotInside(lit: bytes, x: bytes, t: bytes)
    requires t != [] && (forall i | 0 <= i < |lit| :: lit[i] != t[0]) && Contains(lit + x, t)
    ensures Contains(x, t)
  {
    var s := lit + x;
    var i :| 0 <= i <= |s| && At(s, i, t);
    AtFirst(s, i, t);
    assert i >= |lit|;
    assert x[i-|lit|..i-|lit|+|t|] == s[i..i+|t|];
    assert At(x, i - |lit|, t);
  }

  lemma MarkerShape(op: bytes)
    requires op in DANGEROUS
    ensures HAS + op != [] && (HAS + op)[0] == 0x48 && BlankFree(HAS + op)
    ensures op != [] && op[0] != 0x48 && forall i | 0 <= i < |op| :: op[i] != 0x48
  {
    assert WHERE == [0x24, 0x77, 0x68, 0x65, 0x72, 0x65];
    assert FUNCTION == [0x24, 0x66, 0x75, 0x6E, 0x63, 0x74, 0x69, 0x6F, 0x6E];
    assert ACCUMULATOR == [0x24, 0x61, 0x63, 0x63, 0x75, 0x6D, 0x75, 0x6C, 0x61, 0x74, 0x6F, 0x72];
    assert HAS == [0x48, 0x41, 0x53, 0x3A];
    assert |op| >= 2;
  }

  /** No operator is the beginning of another. */
  lemma OperatorsArePrefixFree(op: bytes, other: bytes)
    requires op in DANGEROUS && other in DANGEROUS && op <= other
    ensures op == other
  {
    assert WHERE[1] == 0x77 && FUNCTION[1] == 0x66 && ACCUMULATOR[1] == 0x61;
    assert op[1] == other[1];
  }

  /** One rendered flag shows only its own operator. */
  lemma FlagShowsItself(other: bytes, op: bytes)
    requires op in DANGEROUS && other in DANGEROUS && Contains(Ascii(" HAS:") + other, HAS + op)
    ensures op == other
  {
    hide Contains, At;
    MarkerShape(op);
    MarkerShape(other);
    assert Ascii(" HAS:") + other == Ascii(" ") + (HAS + other) by {
      AsciiOfConcat(" ", "HAS:");
      assert " " + "HAS:" == " HAS:";
    }
    assert Ascii(" ")[0] == 0x20;
    NotInside(Ascii(" "), HAS + other, HAS + op);
    MarkerAtStart(op, other);
    OperatorsArePrefixFree(op, other);
  }

  lemma MarkerAtStart(op: bytes, other: bytes)
    requires op in DANGEROUS && other in DANGEROUS && Contains(HAS + other, HAS + op)
    ensures op <= other
  {
    var s, t := HAS + other, HAS + op;
    var i :| 0 <= i <= |s| && At(s, i, t);
    MarkerShape(op);
    MarkerShape(other);
    AtFirst(s, i, t);
    assert HAS == [0x48, 0x41, 0x53, 0x3A];
    assert s[1] == 0x41 && s[2] == 0x53 && s[3] == 0x3A;
    assert forall m | 4 <= m < |s| :: s[m] == other[m-4];
    assert i == 0;
    assert s[0..|t|] == t;
    assert other[..|op|] == s[4..4+|op|] == t[4..] == op;
  }

  lemma {:induction false} FlagsShowOnlyOps(ops: seq<bytes>, op: bytes)
    requires op in DANGEROUS && (forall o | o in ops :: o in DANGEROUS) && Contains(Flags(ops), HAS + op)
    ensures op in ops
    decreases ops
  {
    hide Contains;
    MarkerShape(op);
    if ops == [] {
      EmptyHasNoMarker(op);
    } else {
      assert Separated(Flags(ops[1..]));
      NotAcrossBlank(Ascii(" HAS:") + ops[0], Flags(ops[1..]), HAS + op);
      if Contains(Flags(ops[1..]), HAS + op) {
        FlagsShowOnlyOps(ops[1..], op);
      } else {
        FlagShowsItself(ops[0], op);
      }
    }
  }

  lemma EmptyHasNoMarker(op: bytes)
    ensures !Contains([], HAS + op)
  {
  }

  /** The rule string of a command whose operators came from the scan shows an operator only when the scan
      found it, or when the command, collection or database spells the whole marker out. */
  lemma MarkerOrigin(c: CommandInfo, op: bytes)
    requires op in DANGEROUS && (forall o | o in c.dangerousOps :: o in DANGEROUS)
    requires Contains(RuleString(c), HAS + op)
    ensures op in c.dangerousOps || Contains(c.command, HAS + op)
            || Contains(c.database, HAS + op) || Contains(c.collection, HAS + op)
  {
    hide Contains, Flags, Ascii;
    var t := HAS + op;
    MarkerShape(op);
    LabelsHaveNoH();
    var db := if c.database != [] then Ascii(" DB:") + c.database else [];
    var coll := if c.collection != [] then Ascii(" COLL:") + c.collection else [];
    var mark := if c.emptyFilter then Ascii(" EMPTY_FILTER") else [];
    var flags := Flags(c.dangerousOps);
    assert RuleString(c) == (CMD + c.command + db + coll + flags) + mark;
    SeparatedParts(c);
    NotAcrossBlank(CMD + c.command + db + coll + flags, mark, t);
    if Contains(mark, t) {
      assert mark + [] == mark;
      if mark != [] { NotInside(mark, [], t); }
      EmptyHasNoMarker(op);
    } else {
      NotAcrossBlank(CMD + c.command + db + coll, flags, t);
      if Contains(flags, t) {
        FlagsShowOnlyOps(c.dangerousOps, op);
      } else {
        NameMarkerOrigin(c, op, db, coll);
      }
    }
  }

  lemma NameMarkerOrigin(c: CommandInfo, op: bytes, db: bytes, coll: bytes)
    requires op in DANGEROUS
    requires db == if c.database != [] then Ascii(" DB:") + c.database else []
    requires coll == if c.collection != [] then Ascii(" COLL:") + c.collection else []
    requires Contains(CMD + c.command + db + coll, HAS + op)
    ensures Contains(c.command, HAS + op) || Contains(c.database, HAS + op) || Contains(c.collection, HAS + op)
  {
    hide Contains, Ascii;
    var t := HAS + op;
    MarkerShape(op);
    LabelsHaveNoH();
    EmptyHasNoMarker(op);
    NotAcrossBlank(CMD + c.command + db, coll, t);
    if Contains(coll, t) {
      if c.collection != [] { NotInside(Ascii(" COLL:"), c.collection, t); }
    } else {
      NotAcrossBlank(CMD + c.command, db, t);
      if Contains(db, t) {
        if c.database != [] { NotInside(Ascii(" DB:"), c.database, t); }
      } else {
        NotInside(CMD, c.command, t);
      }
    }
  }

  /** No fixed part of a rule string but the flags has the letter H. */
  lemma LabelsHaveNoH()
    ensures forall i | 0 <= i < |CMD| :: CMD[i] != 0x48
    ensures forall i | 0 <= i < |Ascii(" DB:")| :: Ascii(" DB:")[i] != 0x48
    ensures forall i | 0 <= i < |Ascii(" COLL:")| :: Ascii(" COLL:")[i] != 0x48
    ensures forall i | 0 <= i < |Ascii(" EMPTY_FILTER")| :: Ascii(" EMPTY_FILTER")[i] != 0x48
    ensures Ascii(" DB:")[0] == Ascii(" COLL:")[0] == 0x20
  {
  }

  lemma SeparatedParts(c: CommandInfo)
    ensures Separated(Flags(c.dangerousOps))
    ensures Separated(if c.emptyFilter then Ascii(" EMPTY_FILTER") else [])
  {
  }

  // ---- the word EMPTY_FILTER in a rule string ----

  const MARK: bytes := Ascii("EMPTY_FILTER")

  /** `\bEMPTY_FILTER\b` matches `s`. */
  predicate ShowsWord(s: bytes) { MatchString(EMPTY_FILTER_WORD, s) }

  predicate StandsAlone(s: bytes, i: nat) {
    At(s, i, MARK) && !WordAt(s, i - 1) && !WordAt(s, i + |MARK|)
  }

  lemma MarkShape()
    ensures |MARK| == 12 && MARK[0] == 0x45 && MARK[11] == 0x52 && BlankFree(MARK)
  {
  }

  lemma ShowsWordMeaning(s: bytes)
    ensures ShowsWord(s) <==> exists i: nat :: StandsAlone(s, i)
  {
    hide At, MatchEnd;
    MarkShape();
    var p := EMPTY_FILTER_WORD;
    if ShowsWord(s) {
      var i, a :| 0 <= i <= |s| && a in p.alternatives && MatchesAt(p, s, i, a);
      LiteralMatchIsExact(MARK, s, i);
      WordBytes(s, i);
      ExactTextMatches(MARK, false, s, i);
      assert StandsAlone(s, i);
    }
    if i: nat :| StandsAlone(s, i) {
      WordBytes(s, i);
      ExactTextMatches(MARK, false, s, i);
      assert MatchesAt(p, s, i, MARK);
    }
  }

  lemma WordBytes(s: bytes, i: nat)
    ensures At(s, i, MARK) <==> StandsAt(s, i, MARK)
    ensures At(s, i, MARK) ==> WordAt(s, i) && WordAt(s, i + |MARK| - 1) && s[i] == 0x45
    ensures At(s, i, MARK) ==> forall m | i <= m < i + |MARK| :: s[m] != 0x20
  {
    MarkShape();
    AtIsElementwise(s, i, MARK);
    if At(s, i, MARK) {
      assert s[i+0] == MARK[0] && s[i+11] == MARK[11];
      forall m | i <= m < i + |MARK| ensures s[m] != 0x20 {
        assert s[i+(m-i)] == MARK[m-i];
      }
    }
  }

  /** A part of a string shows the word in the same places, as long as it does not touch the text around it. */
  lemma WordInPart(s: bytes, pos: nat, part: bytes, i: nat)
    requires At(s, pos, part) && i + |MARK| <= |part|
    requires i == 0 ==> !WordAt(s, pos - 1)
    requires i + |MARK| == |part| ==> !WordAt(s, pos + |part|)
    ensures StandsAlone(part, i) <==> StandsAlone(s, pos + i)
  {
    hide At;
    MarkShape();
    AtIsElementwise(s, pos, part);
    AtIsElementwise(s, pos + i, MARK);
    AtIsElementwise(part, i, MARK);
    assert i > 0 ==> s[pos+(i-1)] == part[i-1];
    assert i + |MARK| < |part| ==> s[pos+(i+|MARK|)] == part[i+|MARK|];
    if At(part, i, MARK) {
      forall m | 0 <= m < |MARK| ensures s[pos+i+m] == MARK[m] {
        assert s[pos+(i+m)] == part[i+m];
      }
    }
    if At(s, pos + i, MARK) {
      forall m | 0 <= m < |MARK| ensures part[i+m] == MARK[m] {
        assert s[pos+(i+m)] == s[pos+i+m];
      }
    }
  }

  /** A separate word does not reach across a blank, and a blank ends a word as the end of the text does. */
  lemma WordAcrossBlank(a: bytes, b: bytes)
    requires Separated(b)
    ensures ShowsWord(a + b) <==> ShowsWord(a) || ShowsWord(b)
  {
    hide At, ShowsWord;
    var s := a + b;
    MarkShape();
    ShowsWordMeaning(s); ShowsWordMeaning(a); ShowsWordMeaning(b);
    AtWhole(a, b);
    assert b != [] ==> s[|a|] == b[0] == 0x20;
    if i: nat :| StandsAlone(a, i) {
      WordBytes(a, i);
      WordInPart(s, 0, a, i);
    }
    if i: nat :| StandsAlone(b, i) {
      WordBytes(b, i);
      WordInPart(s, |a|, b, i);
    }
    if i: nat :| StandsAlone(s, i) {
      WordBytes(s, i);
      if i + |MARK| <= |a| {
        WordInPart(s, 0, a, i);
      } else {
        assert i > |a|;
        WordInPart(s, |a|, b, i - |a|);
      }
    }
  }

  /** A text without the letter E that ends in a colon. */
  predicate IsLabel(lit: bytes) {
    lit != [] && lit[|lit|-1] == 0x3A && forall i | 0 <= i < |lit| :: lit[i] != 0x45
  }

  /** A label neither holds the word nor touches it. */
  lemma WordBehindLabel(lit: bytes, x: bytes)
    requires IsLabel(lit)
    ensures ShowsWord(lit + x) <==> ShowsWord(x)
  {
    hide At, ShowsWord;
    var s := lit + x;
    MarkShape();
    ShowsWordMeaning(s); ShowsWordMeaning(x);
    AtWhole(lit, x);
    if i: nat :| StandsAlone(s, i) {
      WordBytes(s, i);
      assert i >= |lit|;
      WordInPart(s, |lit|, x, i - |lit|);
    }
    if i: nat :| StandsAlone(x, i) {
      WordBytes(x, i);
      WordInPart(s, |lit|, x, i);
    }
  }

  lemma NoWordWithoutE(s: bytes)
    requires forall i | 0 <= i < |s| :: s[i] != 0x45
    ensures !ShowsWord(s)
  {
    hide At, ShowsWord;
    ShowsWordMeaning(s);
    if i: nat :| StandsAlone(s, i) { WordBytes(s, i); }
  }

  lemma {:induction false} FlagsHaveNoE(ops: seq<bytes>)
    requires forall o | o in ops :: o in DANGEROUS
    ensures forall i | 0 <= i < |Flags(ops)| :: Flags(ops)[i] != 0x45
    decreases ops
  {
    if ops == [] {
    } else {
      FlagsHaveNoE(ops[1..]);
      OperatorHasNoE(ops[0]);
      LabelsAreLabels();
    }
  }

  lemma OperatorHasNoE(op: bytes)
    requires op in DANGEROUS
    ensures forall i | 0 <= i < |op| :: op[i] != 0x45
  {
  }

  lemma LabelsAreLabels()
    ensures IsLabel(CMD) && IsLabel(Ascii(" DB:")) && IsLabel(Ascii(" COLL:")) && IsLabel(Ascii(" HAS:"))
    ensures Ascii(" DB:")[0] == Ascii(" COLL:")[0] == 0x20
  {
  }

  /** " DB:" or " COLL:" and its name, when there is one. */
  function Labelled(lit: bytes, name: bytes): bytes { if name != [] then lit + name else [] }

  lemma LabelledShows(lit: bytes, name: bytes)
    requires lit in [Ascii(" DB:"), Ascii(" COLL:")]
    ensures ShowsWord(Labelled(lit, name)) <==> ShowsWord(name)
    ensures Separated(Labelled(lit, name))
  {
    hide ShowsWord;
    LabelsAreLabels();
    if name == [] {
      NoWordWithoutE([]);
    } else {
      WordBehindLabel(lit, name);
    }
  }

  /** Apart from the mark itself, a rule string shows the word EMPTY_FILTER exactly when the command, the database or
      the collection shows it by itself. */
  lemma WordOrigin(c: CommandInfo)
    requires forall o | o in c.dangerousOps :: o in DANGEROUS
    ensures ShowsWord(WithoutMark(c)) <==> ShowsWord(c.command) || ShowsWord(c.database) || ShowsWord(c.collection)
  {
    hide ShowsWord, Ascii, Labelled;
    var db, coll, flags := Labelled(Ascii(" DB:"), c.database), Labelled(Ascii(" COLL:"), c.collection),
                           Flags(c.dangerousOps);
    assert WithoutMark(c) == CMD + c.command + db + coll + flags by { PartsOfRuleString(c); }
    LabelledShows(Ascii(" DB:"), c.database);
    LabelledShows(Ascii(" COLL:"), c.collection);
    SeparatedParts(c);
    FlagsHaveNoE(c.dangerousOps);
    NoWordWithoutE(flags);
    WordAcrossBlank(CMD + c.command + db + coll, flags);
    WordAcrossBlank(CMD + c.command + db, coll);
    WordAcrossBlank(CMD + c.command, db);
    LabelsAreLabels();
    WordBehindLabel(CMD, c.command);
  }

  lemma PartsOfRuleString(c: CommandInfo)
    ensures WithoutMark(c) ==
            CMD + c.command + Labelled(Ascii(" DB:"), c.database) + Labelled(Ascii(" COLL:"), c.collection)
            + Flags(c.dangerousOps)
  {
    hide Ascii, Flags;
  }

  // ---- the verdict, exactly ----

  /** A script operator shows in the rule string of a document exactly when its name occurs in the bytes. */
  lemma OperatorIsShownWhen(bson: bytes, op: bytes)
    requires op in DANGEROUS
    ensures Contains(RuleString(InfoOf(bson)), HAS + op) <==> Contains(bson, op)
  {
    hide Contains, RuleString, Ascii, First, LastWins, Recorded, HasEmptyFilter;
    var info := InfoOf(bson);
    if Contains(bson, op) {
      DangerousOpIsShown(info, op);
    }
    if Contains(RuleString(info), HAS + op) {
      MarkerOrigin(info, op);
      NamesAreContained(bson);
      if op !in info.dangerousOps {
        var name := if Contains(info.command, HAS + op) then info.command
                    else if Contains(info.database, HAS + op) then info.database else info.collection;
        MarkerShowsOperator(bson, name, op);
      }
    }
  }

  lemma MarkerShowsOperator(bson: bytes, name: bytes, op: bytes)
    requires Contains(bson, name) && Contains(name, HAS + op)
    ensures Contains(bson, op)
  {
    var i :| 0 <= i <= |bson| && At(bson, i, name);
    ContainsWithin(bson, i, name, HAS + op);
    var j :| 0 <= j <= |bson| && At(bson, j, HAS + op);
    AtSplit(bson, j, HAS, op);
    assert At(bson, j + 4, op);
  }

  /** The exact decision of the default rules on a command document, whatever its bytes: it depends on the script
      operators that occur in the bytes, the empty-document bytes of a delete or update, the names that by themselves
      show the word EMPTY_FILTER, and the command. */
  lemma DecisionIsExactly(bson: bytes, username: bytes, database: bytes, fold: Fold)
    ensures
      var info := InfoOf(bson);
      Verdict(info, username, database, fold) ==
        ExpectedDecision(
          Contains(bson, WHERE), Contains(bson, FUNCTION) || Contains(bson, ACCUMULATOR),
          || (info.command in {DELETE, UPDATE} && Contains(bson, EMPTY_DOCUMENT))
          || ShowsWord(info.command) || ShowsWord(info.database) || ShowsWord(info.collection),
          info.command)
  {
    hide Contains, RuleString, Ascii, InfoOf, MatchString, NamedBy, Verdict, WithoutMark, ExpectedDecision;
    var info := InfoOf(bson);
    OperatorIsShownWhen(bson, WHERE);
    OperatorIsShownWhen(bson, FUNCTION);
    OperatorIsShownWhen(bson, ACCUMULATOR);
    DecisionMeaning(info, username, database, fold);
    FindingsOfScans(bson);
    WordOrigin(info);
    if info.emptyFilter {
      EmptyFilterIsShown(info);
    } else {
      UnmarkedIs(info);
    }
  }

  /** Its action: blocked exactly when a script operator occurs in the bytes, a delete or update has the empty-document
      bytes, its command is a blocked one, or one of its names by itself shows the word EMPTY_FILTER; otherwise an
      alert exactly for the watched commands, and allowed otherwise. */
  lemma VerdictIsExactly(bson: bytes, username: bytes, database: bytes, fold: Fold)
    ensures
      var info := InfoOf(bson);
      var v := Verdict(info, username, database, fold);
      && (v == Decision(Block, Ascii("nosqli-where-js")) <==> Contains(bson, WHERE))
      && v.action ==
           if || Contains(bson, WHERE) || Contains(bson, FUNCTION) || Contains(bson, ACCUMULATOR)
              || (info.command in {DELETE, UPDATE} && Contains(bson, EMPTY_DOCUMENT))
              || NamedByOneOf(BLOCKED, info.command)
              || ShowsWord(info.command) || ShowsWord(info.database) || ShowsWord(info.collection) then Block
           else if NamedByOneOf(WATCHED, info.command) then Alert
           else Allow
  {
    hide Contains, RuleString, Ascii, InfoOf, MatchString, NamedByOneOf, Verdict, WithoutMark;
    var info := InfoOf(bson);
    OperatorIsShownWhen(bson, WHERE);
    OperatorIsShownWhen(bson, FUNCTION);
    OperatorIsShownWhen(bson, ACCUMULATOR);
    VerdictMeaning(info, username, database, fold);
    FindingsOfScans(bson);
    WordOrigin(info);
    if info.emptyFilter {
      EmptyFilterIsShown(info);
    } else {
      UnmarkedIs(info);
    }
  }

  lemma FindingsOfScans(bson: bytes)
    ensures forall o :: o in InfoOf(bson).dangerousOps <==> o in DANGEROUS && Contains(bson, o)
    ensures
      var info := InfoOf(bson);
      info.emptyFilter <==> info.command in {DELETE, UPDATE} && Contains(bson, EMPTY_DOCUMENT)
  {
  }

  lemma UnmarkedIs(c: CommandInfo)
    requires !c.emptyFilter
    ensures WithoutMark(c) == RuleString(c)
  {
    assert c.(emptyFilter := false) == c;
  }

  /** The same from the wire, in terms of the document sent: what the decision on a client message is. */
  lemma VerdictOnWireIsExactly(requestID: int, c: Carrier, d: Document, rest: bytes, end: IOError,
                               username: bytes, database: bytes, fold: Fold)
    requires IsInt32(requestID) && CarrierOK(c) && WellFormed(d) && d != End
    requires HEADER + |PayloadOf(c, d)| <= MAX_MESSAGE
    ensures
      var v := VerdictOnWire(ClientMessage(requestID, c, d) + rest, end, username, database, fold);
      && v.Some?
      && (v.value == Decision(Block, Ascii("nosqli-where-js")) <==> ShowsOperator(d, Behind(c), WHERE))
      && v.value.action ==
           if || (exists op | op in DANGEROUS :: ShowsOperator(d, Behind(c), op))
              || (d.key in {DELETE, UPDATE} && (HoldsEmpty(d) || Misleads(d, Behind(c))))
              || NamedByOneOf(BLOCKED, d.key)
              || ShowsWord(d.key) || ShowsWord(DatabaseOf(d)) || ShowsWord(CollectionOf(d)) then Block
           else if NamedByOneOf(WATCHED, d.key) then Alert
           else Allow
  {
    hide InfoOf, WellFormed, Encode, VerdictOnWire, ClientMessage, Verdict, Ascii, Contains, NamedByOneOf,
         ShowsWord, HoldsEmpty, Misleads, DatabaseOf, CollectionOf, PayloadOf, ShowsOperator;
    VerdictOnMessage(requestID, c, d, rest, end, username, database, fold);
    InfoOfDocument(d, Behind(c));
    FindingsOfScans(Encode(d) + Behind(c));
    assert WHERE in DANGEROUS && FUNCTION in DANGEROUS && ACCUMULATOR in DANGEROUS;
    VerdictIsExactly(Encode(d) + Behind(c), username, database, fold);
  }

  /** And in full: action and rule. */
  lemma DecisionOnWireIsExactly(requestID: int, c: Carrier, d: Document, rest: bytes, end: IOError,
                                username: bytes, database: bytes, fold: Fold)
    requires IsInt32(requestID) && CarrierOK(c) && WellFormed(d) && d != End
    requires HEADER + |PayloadOf(c, d)| <= MAX_MESSAGE
    ensures
      VerdictOnWire(ClientMessage(requestID, c, d) + rest, end, username, database, fold) ==
        Some(ExpectedDecision(
          ShowsOperator(d, Behind(c), WHERE),
          ShowsOperator(d, Behind(c), FUNCTION) || ShowsOperator(d, Behind(c), ACCUMULATOR),
          || (d.key in {DELETE, UPDATE} && (HoldsEmpty(d) || Misleads(d, Behind(c))))
          || ShowsWord(d.key) || ShowsWord(DatabaseOf(d)) || ShowsWord(CollectionOf(d)),
          d.key))
  {
    hide InfoOf, WellFormed, Encode, VerdictOnWire, ClientMessage, Verdict, Ascii, Contains, ExpectedDecision,
         ShowsWord, HoldsEmpty, Misleads, DatabaseOf, CollectionOf, PayloadOf, ShowsOperator;
    VerdictOnMessage(requestID, c, d, rest, end, username, database, fold);
    InfoOfDocument(d, Behind(c));
    FindingsOfScans(Encode(d) + Behind(c));
    assert WHERE in DANGEROUS && FUNCTION in DANGEROUS && ACCUMULATOR in DANGEROUS;
    DecisionIsExactly(Encode(d) + Behind(c), username, database, fold);
  }
}
