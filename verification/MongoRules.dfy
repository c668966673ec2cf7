/**
 engine/mongodb_rules.go: the default MongoDB rules.  Their ten patterns are literals with
 optional anchoring, case folding and word boundaries, so Go's matching of them is modelled
 exactly, on every byte string.
 */
module MongoRules {
  import opened Bytes
  import opened RuleEngine

  /** `^`, `(?i)`, leading `\b`, literal alternatives and trailing `\b` of a regular expression. */
  datatype Pattern = Pattern(anchored: bool, foldCase: bool, wordStart: bool,
                             alternatives: seq<bytes>, wordEnd: bool)

  function Lower(c: byte): byte { if 0x41 <= c <= 0x5A then c + 0x20 else c }

  predicate IsLetter(c: byte) { 0x61 <= Lower(c) <= 0x7A }

  /** Go's `\w`: ASCII letters, digits and underscore. */
  predicate IsWord(c: byte) { IsLetter(c) || 0x30 <= c <= 0x39 || c == 0x5F }

  predicate WordAt(s: bytes, i: int) { 0 <= i < |s| && IsWord(s[i]) }

  predicate Boundary(s: bytes, i: int) { WordAt(s, i - 1) != WordAt(s, i) }

  const LONG_S: bytes := [0xC5, 0xBF]             // U+017F, folds to s
  const KELVIN: bytes := [0xE2, 0x84, 0xAA]       // U+212A, folds to k

  /** Where a match of the single character `c` at `at` ends. */
  function LetterEnd(c: byte, foldCase: bool, s: bytes, at: nat): (end: Option<nat>)
    ensures end.Some? ==> at < end.value <= |s|
  {
    if at < |s| && (s[at] == c || (foldCase && Lower(s[at]) == Lower(c))) then Some(at + 1)
    else if foldCase && Lower(c) == 0x73 && At(s, at, LONG_S) then Some(at + 2)
    else if foldCase && Lower(c) == 0x6B && At(s, at, KELVIN) then Some(at + 3)
    else None
  }

  /** Word characters are those of `\w`, and case folding adds the long s and the Kelvin sign to the ASCII letters. */
  lemma CharacterClasses(c: byte, s: bytes)
    ensures
      var ch := c as char;
      IsWord(c) <==> 'a' <= ch <= 'z' || 'A' <= ch <= 'Z' || '0' <= ch <= '9' || ch == '_'
    ensures LetterEnd(0x73, true, [0xC5, 0xBF] + s, 0) == LetterEnd(0x53, true, [0xC5, 0xBF] + s, 0) == Some(2)
    ensures LetterEnd(0x6B, true, [0xE2, 0x84, 0xAA] + s, 0) == Some(3)
    ensures LetterEnd(0x4B, true, [0xE2, 0x84, 0xAA] + s, 0) == Some(3)
    ensures c !in {0x53, 0x73} ==>
              LetterEnd(c, true, [0xC5, 0xBF] + s, 0) == if Lower(c) == 0xC5 then Some(1) else None
    ensures LetterEnd(0x73, false, [0xC5, 0xBF] + s, 0) == LetterEnd(0x6B, false, [0xE2, 0x84, 0xAA] + s, 0) == None
  {
    assert ([0xC5, 0xBF] + s)[0..2] == LONG_S;
    assert ([0xE2, 0x84, 0xAA] + s)[0..3] == KELVIN;
  }

  /** Where a match of the literal `lit` at `at` ends. */
  function MatchEnd(lit: bytes, foldCase: bool, s: bytes, at: nat): Option<nat>
    decreases lit
  {
    if lit == [] then Some(at)
    else match LetterEnd(lit[0], foldCase, s, at)
      case None => None
      case Some(next) => MatchEnd(lit[1..], foldCase, s, next)
  }

  predicate MatchesAt(p: Pattern, s: bytes, at: nat, alternative: bytes) {
    && (p.anchored ==> at == 0)
    && (p.wordStart ==> Boundary(s, at))
    && var end := MatchEnd(alternative, p.foldCase, s, at);
       end.Some? && (p.wordEnd ==> Boundary(s, end.value))
  }

  predicate MatchString(p: Pattern, s: bytes) {
    exists i, a | 0 <= i <= |s| && a in p.alternatives :: MatchesAt(p, s, i, a)
  }

  // ---- the rules ----

  function Literal(lit: string): Pattern { Pattern(false, false, false, [Ascii(lit)], false) }

  /** `(?i)^CMD:(a|b|...)\b` */
  function Command(names: seq<bytes>): Pattern {
    Pattern(true, true, false, seq(|names|, i requires 0 <= i < |names| => CMD + names[i]), true)
  }

  const CMD: bytes := Ascii("CMD:")
  const EMPTY_FILTER_WORD: Pattern := Pattern(false, false, true, [Ascii("EMPTY_FILTER")], true)

  function On(name: string, action: Action, p: Pattern): Rule {
    Rule(Ascii(name), action, Some(s => MatchString(p, s)), [], [])
  }

  function DefaultMongoDBRules(): seq<Rule> {
    [ On("nosqli-where-js", Block, Literal("HAS:$where")),
      On("nosqli-function-js", Block,
         Pattern(false, false, false, [Ascii("HAS:$function"), Ascii("HAS:$accumulator")], false)),
      On("ddl-drop-collection", Block, Command([Ascii("drop")])),
      On("ddl-drop-database", Block, Command([Ascii("dropDatabase")])),
      On("mass-operation-no-filter", Block, EMPTY_FILTER_WORD),
      On("privesc-user-mgmt", Block, Command([Ascii("createUser"), Ascii("dropUser"), Ascii("updateUser")])),
      On("privesc-grant-roles", Block, Command([Ascii("grantRolesToUser"), Ascii("revokeRolesFromUser")])),
      On("recon-list-databases", Alert, Command([Ascii("listDatabases")])),
      On("recon-list-collections", Alert, Command([Ascii("listCollections")])),
      On("mapreduce-js", Alert, Command([Ascii("mapReduce")])) ]
  }

  /** The default list has the shape under which no alert shadows a block. */
  lemma DefaultRulesAreOrdered()
    ensures SeverityOrdered(DefaultMongoDBRules())
  {
  }

  /** So no default alert ever hides a default block, whatever the two patterns match. */
  lemma DefaultRulesNeverShadow(q: Query, fold: Fold, severity: nat)
    requires severity > 0
    ensures NeverShadows(DefaultMongoDBRules())
    ensures Severity(FirstMatch(DefaultMongoDBRules(), q, fold).action) >= severity
            <==> Reaches(DefaultMongoDBRules(), q, fold, severity)
  {
    hide DefaultMongoDBRules, SeverityOrdered;
    DefaultRulesAreOrdered();
    OrderedExactlyWhenNothingShadows(DefaultMongoDBRules());
    FirstMatchIsMostSevere(DefaultMongoDBRules(), q, fold, severity);
  }

  // ---- what the patterns mean ----

  /** Text that is there literally is matched, with or without case folding. */
  lemma {:induction false} ExactTextMatches(lit: bytes, foldCase: bool, s: bytes, at: nat)
    requires At(s, at, lit)
    ensures MatchEnd(lit, foldCase, s, at) == Some(at + |lit|)
    decreases lit
  {
    if lit == [] {
    } else {
      assert s[at] == s[at..at+|lit|][0];
      assert [lit[0]] + lit[1..] == lit;
      AtSplit(s, at, [lit[0]], lit[1..]);
      ExactTextMatches(lit[1..], foldCase, s, at + 1);
    }
  }

  /** Without case folding nothing else is. */
  lemma {:induction false} LiteralMatchIsExact(lit: bytes, s: bytes, at: nat)
    requires at <= |s| && MatchEnd(lit, false, s, at).Some?
    ensures At(s, at, lit)
    decreases lit
  {
    if lit == [] {
    } else {
      LiteralMatchIsExact(lit[1..], s, at + 1);
      assert s[at..at+|lit|] == [s[at]] + s[at+1..at+|lit|];
      assert lit == [lit[0]] + lit[1..];
    }
  }

  /** A plain alternation matches exactly the strings that contain one of its literals. */
  lemma PlainPatternIsSubstring(alternatives: seq<bytes>, s: bytes)
    ensures MatchString(Pattern(false, false, false, alternatives, false), s) <==>
            exists a | a in alternatives :: Contains(s, a)
  {
    var p := Pattern(false, false, false, alternatives, false);
    if MatchString(p, s) {
      var i, a :| 0 <= i <= |s| && a in p.alternatives && MatchesAt(p, s, i, a);
      LiteralMatchIsExact(a, s, i);
    }
    if a :| a in alternatives && Contains(s, a) {
      var i :| 0 <= i <= |s| && At(s, i, a);
      ExactTextMatches(a, false, s, i);
      assert MatchesAt(p, s, i, a);
    }
  }

  lemma WordAtEndMatches(front: bytes, word: bytes)
    requires word != [] && IsWord(word[0]) && IsWord(word[|word|-1])
    ensures MatchString(Pattern(false, false, true, [word], true), front + Ascii(" ") + word)
  {
    var s, at := front + Ascii(" ") + word, |front| + 1;
    assert At(s, at, word);
    ExactTextMatches(word, false, s, at);
    assert s[at-1] == 0x20 && s[at] == word[0] && s[|s|-1] == word[|word|-1];
    assert MatchesAt(Pattern(false, false, true, [word], true), s, at, word);
  }

  /** `\bEMPTY_FILTER\b` matches a string that ends in the separate word EMPTY_FILTER. */
  lemma EmptyFilterWordMatches(front: bytes)
    ensures MatchString(EMPTY_FILTER_WORD, front + Ascii(" EMPTY_FILTER"))
  {
    var word := Ascii("EMPTY_FILTER");
    assert word != [] && word[0] == 0x45 && word[|word|-1] == 0x52;
    hide Ascii, MatchString;
    assert Ascii(" EMPTY_FILTER") == Ascii(" ") + word by {
      assert " EMPTY_FILTER" == " " + "EMPTY_FILTER";
      AsciiOfConcat(" ", "EMPTY_FILTER");
    }
    WordAtEndMatches(front, word);
    assert front + (Ascii(" ") + word) == front + Ascii(" ") + word;
  }

  // ---- command patterns ----

  predicate Letters(s: bytes) { forall i | 0 <= i < |s| :: IsLetter(s[i]) }

  /** The command `cmd` is `name`, case folded, possibly followed by something that starts a new word. */
  predicate NamedBy(name: bytes, cmd: bytes) {
    var end := MatchEnd(name, true, cmd, 0);
    end.Some? && Boundary(cmd, end.value)
  }

  /** What follows the command in a rule string: nothing, or a blank. */
  predicate Separated(rest: bytes) { rest != [] ==> rest[0] == 0x20 }

  lemma {:induction false} MatchEndOfConcat(a: bytes, b: bytes, s: bytes, at: nat)
    requires At(s, at, a)
    ensures MatchEnd(a + b, true, s, at) == MatchEnd(b, true, s, at + |a|)
    decreases a
  {
    if a == [] {
      assert a + b == b;
    } else {
      assert s[at] == s[at..at+|a|][0];
      assert [a[0]] + a[1..] == a;
      AtSplit(s, at, [a[0]], a[1..]);
      assert (a + b)[1..] == a[1..] + b;
      MatchEndOfConcat(a[1..], b, s, at + 1);
    }
  }

  /** Matching letters inside the rule string is matching them inside the command: the blank stops the match. */
  lemma {:induction false} MatchStaysInCommand(name: bytes, cmd: bytes, rest: bytes, k: nat)
    requires Letters(name) && Separated(rest) && k <= |cmd|
    ensures
      var end, inner := MatchEnd(name, true, CMD + cmd + rest, |CMD| + k), MatchEnd(name, true, cmd, k);
      && end.Some? == inner.Some?
      && (inner.Some? ==> end.value == |CMD| + inner.value && k + |name| <= inner.value <= |cmd|)
    decreases name
  {
    if name == [] {
    } else {
      LetterStaysInCommand(name[0], cmd, rest, k);
      var next := LetterEnd(name[0], true, cmd, k);
      if next.Some? { MatchStaysInCommand(name[1..], cmd, rest, next.value); }
    }
  }

  lemma LetterStaysInCommand(c: byte, cmd: bytes, rest: bytes, k: nat)
    requires IsLetter(c) && Separated(rest) && k <= |cmd|
    ensures
      var end, inner := LetterEnd(c, true, CMD + cmd + rest, |CMD| + k), LetterEnd(c, true, cmd, k);
      && end.Some? == inner.Some?
      && (inner.Some? ==> end.value == |CMD| + inner.value)
  {
    var s := CMD + cmd + rest;
    assert forall i | 0 <= i < |cmd| :: s[|CMD|+i] == cmd[i];
    assert |cmd| + |CMD| < |s| ==> s[|CMD|+|cmd|] == 0x20;
    PartStaysBeforeBlank(CMD, LONG_S, cmd, rest, k);
    PartStaysBeforeBlank(CMD, KELVIN, cmd, rest, k);
  }

  lemma PartStaysBeforeBlank(pre: bytes, part: bytes, cmd: bytes, rest: bytes, k: nat)
    requires (forall j | 0 <= j < |part| :: part[j] != 0x20) && Separated(rest) && k <= |cmd|
    ensures At(pre + cmd + rest, |pre| + k, part) <==> At(cmd, k, part)
  {
    hide At;
    var s, at := pre + cmd + rest, |pre| + k;
    AtIsElementwise(s, at, part);
    AtIsElementwise(cmd, k, part);
    assert forall i | 0 <= i < |cmd| :: s[|pre|+i] == cmd[i];
    assert |pre| + |cmd| < |s| ==> s[|pre|+|cmd|] == rest[0] == 0x20;
    if StandsAt(s, at, part) {
      forall i | at <= i < at + |part| ensures s[i] != 0x20 {
        assert s[at+(i-at)] == part[i-at];
      }
      assert at + |part| <= |pre| + |cmd|;
      forall j | 0 <= j < |part| ensures cmd[k+j] == part[j] {
        assert s[|pre|+(k+j)] == s[at+j];
      }
    }
    if StandsAt(cmd, k, part) {
      forall j | 0 <= j < |part| ensures s[at+j] == part[j] {
        assert s[|pre|+(k+j)] == s[at+j];
      }
    }
  }

  /** A command rule matches a rendered command exactly when one of its names names the command,
      whatever database, collection and flags follow. */
  lemma CommandPatternMeaning(names: seq<bytes>, cmd: bytes, rest: bytes)
    requires forall n | n in names :: n != [] && Letters(n)
    requires Separated(rest)
    ensures MatchString(Command(names), CMD + cmd + rest) <==> exists n | n in names :: NamedBy(n, cmd)
  {
    var s, p := CMD + cmd + rest, Command(names);
    if MatchString(p, s) {
      var i, a :| 0 <= i <= |s| && a in p.alternatives && MatchesAt(p, s, i, a);
      var j :| 0 <= j < |names| && a == CMD + names[j];
      assert names[j] in names;
      CommandMatchMeaning(names[j], cmd, rest);
    }
    if n :| n in names && NamedBy(n, cmd) {
      CommandMatchMeaning(n, cmd, rest);
      var j :| 0 <= j < |names| && names[j] == n;
      assert p.alternatives[j] == CMD + n;
      assert MatchesAt(p, s, 0, CMD + n);
    }
  }

  lemma CommandMatchMeaning(name: bytes, cmd: bytes, rest: bytes)
    requires name != [] && Letters(name) && Separated(rest)
    ensures
      var s := CMD + cmd + rest;
      var end := MatchEnd(CMD + name, true, s, 0);
      (end.Some? && Boundary(s, end.value)) <==> NamedBy(name, cmd)
  {
    var s := CMD + cmd + rest;
    assert s[0..|CMD|] == CMD;
    MatchEndOfConcat(CMD, name, s, 0);
    MatchStaysInCommand(name, cmd, rest, 0);
    var inner := MatchEnd(name, true, cmd, 0);
    if inner.Some? {
      var e := inner.value;
      assert s[|CMD|+e-1] == cmd[e-1];
      assert e < |cmd| ==> s[|CMD|+e] == cmd[e];
      assert e == |cmd| && |CMD| + e < |s| ==> s[|CMD|+e] == 0x20;
    }
  }

  predicate SameLetters(name: bytes, cmd: bytes, k: nat) {
    k + |name| <= |cmd| && forall i | 0 <= i < |name| :: Lower(cmd[k+i]) == Lower(name[i])
  }

  /** An ASCII command is named by `name` exactly when it starts with those letters in any case
      and the name ends there or is followed by a byte that is no word character. */
  lemma AsciiCommandIsNamed(name: bytes, cmd: bytes)
    requires name != [] && Letters(name)
    requires forall i | 0 <= i < |cmd| :: cmd[i] < 0x80
    ensures NamedBy(name, cmd) <==> SameLetters(name, cmd, 0) && !WordAt(cmd, |name|)
  {
    AsciiMatchEnd(name, cmd, 0);
    if SameLetters(name, cmd, 0) {
      assert Lower(cmd[|name|-1]) == Lower(name[|name|-1]);
    }
  }

  lemma {:induction false} AsciiMatchEnd(name: bytes, cmd: bytes, k: nat)
    requires forall i | 0 <= i < |cmd| :: cmd[i] < 0x80
    requires k <= |cmd|
    ensures MatchEnd(name, true, cmd, k) == if SameLetters(name, cmd, k) then Some(k + |name|) else None
    decreases name
  {
    if name == [] {
    } else {
      AtFirst(cmd, k, LONG_S);
      AtFirst(cmd, k, KELVIN);
      assert SameLetters(name, cmd, k) ==> Lower(cmd[k+0]) == Lower(name[0]);
      if k < |cmd| && Lower(cmd[k]) == Lower(name[0]) {
        AsciiMatchEnd(name[1..], cmd, k + 1);
        assert SameLetters(name, cmd, k) <==> SameLetters(name[1..], cmd, k + 1) by {
          if SameLetters(name[1..], cmd, k + 1) {
            forall i | 0 < i < |name| ensures Lower(cmd[k+i]) == Lower(name[i]) {
              assert name[1..][i-1] == name[i] && cmd[k+1+(i-1)] == cmd[k+i];
            }
          }
          if SameLetters(name, cmd, k) {
            forall i | 0 <= i < |name| - 1 ensures Lower(cmd[k+1+i]) == Lower(name[1..][i]) {
              assert cmd[k+(i+1)] == cmd[k+1+i];
            }
          }
        }
      }
    }
  }
}
