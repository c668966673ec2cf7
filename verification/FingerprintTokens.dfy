/**
 content/content.go: what the tokens of a fingerprint stand for, and how a set of values is
 fingerprinted.
 */
module FingerprintTokens {
  import opened Bytes
  import opened StableSorting
  import opened Fingerprint

  // ---- repetitions ----

  /** The digest does not tell two of the leaves apart although they are of one class. */
  ghost predicate Collides(env: Env, leaves: seq<Leaf>) {
    exists x, y | x in leaves && y in leaves ::
      x != y && x.name == y.name && env.digest(Keyed(env, x)) == env.digest(Keyed(env, y))
  }

  predicate ColonFree(leaves: seq<Leaf>) { forall x | x in leaves :: COLON !in x.name }

  lemma DiscoveredRepeats(env: Env, leaves: seq<Leaf>)
    requires ColonFree(leaves)
    ensures Repeats(Toks(env, Distinct(leaves))) <==> Collides(env, leaves)
  {
    hide Token, Keyed, Distinct;
    DistinctMeaning(leaves);
    var d := Distinct(leaves);
    var toks := Toks(env, d);
    if Repeats(toks) {
      var i, j :| 0 <= i < j < |toks| && toks[i].s == toks[j].s;
      assert d[i] in leaves && d[j] in leaves;
      TokenMeaning(env, d[i], d[j]);
    }
    if Collides(env, leaves) {
      var x, y :| x in leaves && y in leaves &&
                  x != y && x.name == y.name && env.digest(Keyed(env, x)) == env.digest(Keyed(env, y));
      TokenMeaning(env, x, y);
      assert x in d && y in d;
      var i :| 0 <= i < |d| && d[i] == x;
      var j :| 0 <= j < |d| && d[j] == y;
      assert toks[i].s == toks[j].s;
    }
  }

  /** A fingerprint names no token twice, unless the digest fails to tell two leaves of one class apart; without a
      limit it does so exactly then. */
  lemma RepeatsOnlyOnCollision(env: Env, text: bytes, maxN: int)
    ensures Repeats(Selected(env, text, maxN)) ==> Collides(env, Leaves(env, text))
    ensures maxN <= 0 ==> (Repeats(Selected(env, text, maxN)) <==> Collides(env, Leaves(env, text)))
  {
    hide Token, Keyed, Distinct, StableSorted, Leaves, Collides;
    LeavesAreColonFree(env, text);
    var found := Discovered(env, text);
    DiscoveredRepeats(env, Leaves(env, text));
    StableSortedIsStable(found);
    var all := StableSorted(found);
    if Repeats(Selected(env, text, maxN)) {
      var kept := Selected(env, text, maxN);
      var i, j :| 0 <= i < j < |kept| && kept[i].s == kept[j].s;
      assert all[i].s == all[j].s;
      PermutationRepeats(all, found);
    }
    if maxN <= 0 && Repeats(found) {
      PermutationRepeats(found, all);
    }
  }

  // ---- leaves, pattern by pattern ----

  /** `x` is the canonical form of some match of some class in the text. */
  predicate FoundIn(env: Env, text: bytes, x: Leaf) {
    exists p, m | 0 <= p < |CLASSES| && m in env.find(p, text) :: x == Canon(env, CLASSES[p], m)
  }

  lemma {:induction false} LeavesFromMeaning(env: Env, text: bytes, from: nat, x: Leaf)
    requires from <= |CLASSES|
    ensures x in LeavesFrom(env, CLASSES, text, from) <==>
            exists p, m | from <= p < |CLASSES| && m in env.find(p, text) :: x == Canon(env, CLASSES[p], m)
    decreases |CLASSES| - from
  {
    hide Canon;
    if from == |CLASSES| {
    } else {
      LeavesFromMeaning(env, text, from + 1, x);
      var matches := env.find(from, text);
      var canons := Canons(env, CLASSES[from], matches);
      if x in canons {
        var k :| 0 <= k < |canons| && canons[k] == x;
        assert matches[k] in env.find(from, text);
      }
      if m :| m in matches && x == Canon(env, CLASSES[from], m) {
        var k :| 0 <= k < |matches| && matches[k] == m;
        assert canons[k] == x;
      }
    }
  }

  lemma LeavesMeaning(env: Env, text: bytes)
    ensures forall x :: x in Leaves(env, text) <==> FoundIn(env, text, x)
  {
    forall x ensures x in Leaves(env, text) <==> FoundIn(env, text, x) {
      LeavesFromMeaning(env, text, 0, x);
    }
  }

  /** Class by class: matches of uuid, email and hexdigest are lower-cased, those of jwt and opaque are not. */
  lemma LeavesByClass(env: Env, text: bytes, x: Leaf)
    ensures x in Leaves(env, text) <==>
            || (exists m | m in env.find(0, text) :: x == Leaf(Ascii("uuid"), env.toLower(m)))
            || (exists m | m in env.find(1, text) :: x == Leaf(Ascii("email"), env.toLower(m)))
            || (exists m | m in env.find(2, text) :: x == Leaf(Ascii("jwt"), m))
            || (exists m | m in env.find(3, text) :: x == Leaf(Ascii("hexdigest"), env.toLower(m)))
            || (exists m | m in env.find(4, text) :: x == Leaf(Ascii("opaque"), m))
  {
    hide Ascii, Leaves;
    LeavesMeaning(env, text);
    assert |CLASSES| == 5;
    if p, m :| 0 <= p < |CLASSES| && m in env.find(p, text) && x == Canon(env, CLASSES[p], m) {
      assert p == 0 || p == 1 || p == 2 || p == 3 || p == 4;
    }
    if m :| m in env.find(0, text) && x == Leaf(Ascii("uuid"), env.toLower(m)) {
      assert x == Canon(env, CLASSES[0], m);
    }
    if m :| m in env.find(1, text) && x == Leaf(Ascii("email"), env.toLower(m)) {
      assert x == Canon(env, CLASSES[1], m);
    }
    if m :| m in env.find(2, text) && x == Leaf(Ascii("jwt"), m) { assert x == Canon(env, CLASSES[2], m); }
    if m :| m in env.find(3, text) && x == Leaf(Ascii("hexdigest"), env.toLower(m)) {
      assert x == Canon(env, CLASSES[3], m);
    }
    if m :| m in env.find(4, text) && x == Leaf(Ascii("opaque"), m) { assert x == Canon(env, CLASSES[4], m); }
  }

  lemma LeavesAreColonFree(env: Env, text: bytes)
    ensures ColonFree(Leaves(env, text))
  {
    hide Ascii, Leaves;
    LeavesMeaning(env, text);
    ClassNamesAreColonFree();
  }

  lemma ClassNamesAreColonFree()
    ensures forall c | c in CLASSES :: COLON !in c.name
  {
  }

  // ---- several values at once ----

  const NEWLINE: byte := 0x0A

  /** No match and no credential reaches across a line break, and nothing is found in an empty text.  The patterns of
      content.go are of this kind: none of them matches a line break. */
  ghost predicate LocalToLines(env: Env) {
    && (forall p: nat, a, b :: env.find(p, a + [NEWLINE] + b) == env.find(p, a) + env.find(p, b))
    && (forall p: nat :: env.find(p, []) == [])
    && (forall a, b :: env.credential(a + [NEWLINE] + b) <==> env.credential(a) || env.credential(b))
  }

  lemma {:induction false} FoundInLines(env: Env, values: seq<bytes>, p: nat, m: bytes)
    requires LocalToLines(env) && values != []
    ensures m in env.find(p, JoinLines(values)) <==> exists v | v in values :: m in env.find(p, v)
    decreases values
  {
    if |values| == 1 {
      assert values[0] in values;
    } else {
      var more := values[1..];
      FoundInLines(env, more, p, m);
      assert JoinLines(values) == values[0] + [NEWLINE] + JoinLines(more);
      assert values == [values[0]] + more;
    }
  }

  lemma {:induction false} CredentialInLines(env: Env, values: seq<bytes>)
    requires LocalToLines(env) && values != []
    ensures env.credential(JoinLines(values)) <==> exists v | v in values :: env.credential(v)
    decreases values
  {
    if |values| == 1 {
      assert values[0] in values;
    } else {
      var more := values[1..];
      CredentialInLines(env, more);
      assert JoinLines(values) == values[0] + [NEWLINE] + JoinLines(more);
      assert values == [values[0]] + more;
    }
  }

  lemma LeavesOfLines(env: Env, values: seq<bytes>)
    requires LocalToLines(env) && values != []
    ensures forall x :: x in Leaves(env, JoinLines(values)) <==> exists v | v in values :: x in Leaves(env, v)
  {
    hide Leaves, Canon, LocalToLines, JoinLines;
    LeavesMeaning(env, JoinLines(values));
    forall v { LeavesMeaning(env, v); }
    forall p: nat, m { FoundInLines(env, values, p, m); }
  }

  /** Without a limit a fingerprint lists the tokens of all leaves. */
  lemma UnlimitedIsAllTokens(env: Env, text: bytes, t: bytes)
    ensures t in Texts(Selected(env, text, 0)) <==> exists x | x in Leaves(env, text) :: t == Token(env, x)
  {
    hide Token, Distinct, StableSorted, Leaves;
    DistinctMeaning(Leaves(env, text));
    var d, found := Distinct(Leaves(env, text)), Discovered(env, text);
    var all := StableSorted(found);
    StableSortedIsStable(found);
    if t in Texts(all) {
      var i :| 0 <= i < |all| && all[i].s == t;
      assert all[i] in multiset(found);
      var k :| 0 <= k < |found| && found[k] == all[i];
      assert d[k] in Leaves(env, text);
    }
    if x :| x in Leaves(env, text) && t == Token(env, x) {
      assert x in d;
      var k :| 0 <= k < |d| && d[k] == x;
      assert found[k] in multiset(all);
      var i :| 0 <= i < |all| && all[i] == found[k];
      assert Texts(all)[i] == t;
    }
  }

  lemma JoinIsEmptyWhen(values: seq<bytes>)
    ensures JoinLines(values) == [] <==> values == [] || values == [[]]
  {
    if |values| == 1 { assert values == [values[0]]; }
  }

  lemma NothingInEmptyText(env: Env)
    requires LocalToLines(env)
    ensures forall x :: x !in Leaves(env, [])
  {
    hide Leaves;
    LeavesMeaning(env, []);
  }

  /** One of the leaves of the text has this token. */
  predicate HasToken(env: Env, text: bytes, t: bytes) {
    exists x | x in Leaves(env, text) :: t == Token(env, x)
  }

  lemma TokensOfLines(env: Env, values: seq<bytes>, t: bytes)
    requires LocalToLines(env) && values != []
    ensures HasToken(env, JoinLines(values), t) <==> exists v | v in values :: v != [] && HasToken(env, v, t)
  {
    hide Leaves, Token, LocalToLines, JoinLines;
    LeavesOfLines(env, values);
    NothingInEmptyText(env);
  }

  /** What a text fingerprints to without a limit, in terms of its leaves. */
  lemma UnlimitedMeaning(env: Env, text: bytes, t: bytes)
    requires text != [] && !env.credential(text)
    ensures t in FingerprintOf(env, text, 0).value <==> HasToken(env, text, t)
  {
    hide Leaves, Token, Selected, Texts;
    UnlimitedIsAllTokens(env, text, t);
  }

  /** Values are fingerprinted together: there is no result exactly when there is no text, or one value among them
      looks like a credential. */
  lemma OneCredentialSuppressesAll(env: Env, values: seq<bytes>, maxN: int)
    requires LocalToLines(env)
    ensures ValuesFingerprint(env, values, maxN) == None <==>
            values == [] || values == [[]] || exists v | v in values :: env.credential(v)
  {
    hide LocalToLines, JoinLines, Selected, Texts;
    JoinIsEmptyWhen(values);
    if values != [] { CredentialInLines(env, values); }
  }

  /** Otherwise the tokens are those the values would give one by one. */
  lemma ValuesGiveTheirTokens(env: Env, values: seq<bytes>, t: bytes)
    requires LocalToLines(env) && ValuesFingerprint(env, values, 0).Some?
    ensures t in ValuesFingerprint(env, values, 0).value <==>
            exists v | v in values :: FingerprintOf(env, v, 0).Some? && t in FingerprintOf(env, v, 0).value
  {
    hide LocalToLines, JoinLines, HasToken, Selected, Texts;
    OneCredentialSuppressesAll(env, values, 0);
    TokensOfLines(env, values, t);
    UnlimitedMeaning(env, JoinLines(values), t);
    forall v | v in values && v != [] ensures t in FingerprintOf(env, v, 0).value <==> HasToken(env, v, t) {
      UnlimitedMeaning(env, v, t);
    }
  }

  /** But they are not listed value by value, as the comment has it: with a limit of one, the longest token wins
      whichever value it comes from. */
  lemma LongestTokenWins(env: Env, values: seq<bytes>, v: bytes, w: bytes, x: Leaf, y: Leaf)
    requires values == [v, w] || values == [w, v]
    requires LocalToLines(env) && !env.credential(v) && !env.credential(w)
    requires Leaves(env, v) == [x] && Leaves(env, w) == [y] && |x.canon| < |y.canon|
    ensures ValuesFingerprint(env, values, 1) == Some([Token(env, y)])
  {
    hide Leaves, Distinct, StableSorted, JoinLines, LocalToLines, Token;
    OneCredentialSuppressesAll(env, values, 1);
    LeavesOfLines(env, values);
    assert v in values && w in values;
    LongestIsFirst(env, JoinLines(values), x, y);
  }

  lemma LongestIsFirst(env: Env, text: bytes, x: Leaf, y: Leaf)
    requires y in Leaves(env, text) && forall z | z in Leaves(env, text) :: z == x || z == y
    requires |x.canon| < |y.canon|
    ensures Texts(Selected(env, text, 1)) == [Token(env, y)]
  {
    hide Leaves, Distinct, StableSorted, Token;
    var d, found := Distinct(Leaves(env, text)), Discovered(env, text);
    DistinctMeaning(Leaves(env, text));
    StableSortedIsStable(found);
    var all := StableSorted(found);
    assert y in d;
    var k :| 0 <= k < |d| && d[k] == y;
    assert found[k] in multiset(all);
    var i :| 0 <= i < |all| && all[i] == found[k];
    assert all[0] in multiset(found);
    var m :| 0 <= m < |found| && found[m] == all[0];
    assert d[m] in Leaves(env, text);
    assert all[0].n >= all[i].n;
    assert all[0] == TokOf(env, y);
  }
}
