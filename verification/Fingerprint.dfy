/**
 content/content.go: the fingerprint of a text is the top-N selection of its distinct
 high-entropy tokens.  The regular expressions, the case mapping and the keyed digest are
 parameters; what is done with their results is modelled.
 */
module Fingerprint {
  import opened Bytes
  import opened StableSorting

  // ---- candidates, without repetition ----

  /** A token class and whether its matches are lower-cased. */
  datatype Class = Class(name: bytes, lower: bool)

  const CLASSES: seq<Class> :=
    [Class(Ascii("uuid"), true), Class(Ascii("email"), true), Class(Ascii("jwt"), false),
     Class(Ascii("hexdigest"), true), Class(Ascii("opaque"), false)]

  /** `find(i, text)` are the matches of pattern `i`; `credential` is the credential pattern;
      `digest` is the hexadecimal form of the first 96 bits of SHA-256. */
  datatype Env = Env(find: (nat, bytes) -> seq<bytes>, credential: bytes -> bool,
                     toLower: bytes -> bytes, digest: bytes -> bytes, key: bytes)

  datatype Leaf = Leaf(name: bytes, canon: bytes)

  function Canon(env: Env, c: Class, m: bytes): Leaf { Leaf(c.name, if c.lower then env.toLower(m) else m) }

  function Canons(env: Env, c: Class, matches: seq<bytes>): seq<Leaf> {
    seq(|matches|, i requires 0 <= i < |matches| => Canon(env, c, matches[i]))
  }

  /** All leaves of a text in the order of discovery, patterns from number `from` on. */
  function LeavesFrom(env: Env, classes: seq<Class>, text: bytes, from: nat): seq<Leaf>
    decreases |classes| - from
  {
    if from >= |classes| then []
    else Canons(env, classes[from], env.find(from, text)) + LeavesFrom(env, classes, text, from + 1)
  }

  function Leaves(env: Env, text: bytes): seq<Leaf> { LeavesFrom(env, CLASSES, text, 0) }

  /** First occurrences only. */
  function Distinct(leaves: seq<Leaf>): seq<Leaf> {
    if leaves == [] then []
    else
      var front, x := leaves[..|leaves|-1], leaves[|leaves|-1];
      if x in front then Distinct(front) else Distinct(front) + [x]
  }

  /** Distinct has the same elements, each once. */
  lemma {:induction false} DistinctMeaning(leaves: seq<Leaf>)
    ensures forall x :: x in Distinct(leaves) <==> x in leaves
    ensures forall i, j | 0 <= i < j < |Distinct(leaves)| :: Distinct(leaves)[i] != Distinct(leaves)[j]
    decreases leaves
  {
    if leaves == [] {
    } else {
      var front, x := leaves[..|leaves|-1], leaves[|leaves|-1];
      assert leaves == front + [x];
      DistinctMeaning(front);
    }
  }

  /** It lists them in the order of discovery: what a prefix of the leaves gives stays in front. */
  lemma {:induction false} DistinctKeepsOrder(leaves: seq<Leaf>, k: nat)
    requires k <= |leaves|
    ensures Distinct(leaves[..k]) <= Distinct(leaves)
    decreases |leaves|
  {
    if k < |leaves| {
      assert leaves[..|leaves|-1][..k] == leaves[..k];
      DistinctKeepsOrder(leaves[..|leaves|-1], k);
    } else {
      assert leaves[..k] == leaves;
    }
  }

  /** The key under which the code remembers a leaf it has seen. */
  function DedupKey(x: Leaf): bytes { x.name + [0] + x.canon }

  /** A separator that does not occur in the first part divides a string in one way only. */
  lemma DivisionIsUnique(sep: byte, a: bytes, b: bytes, a': bytes, b': bytes)
    requires sep !in a && sep !in a' && a + [sep] + b == a' + [sep] + b'
    ensures a == a' && b == b'
  {
    var s := a + [sep] + b;
    assert forall k | 0 <= k < |a| :: s[k] == a[k] != sep;
    assert forall k | 0 <= k < |a'| :: s[k] == a'[k] != sep;
    assert s[|a|] == sep == s[|a'|];
    assert a == s[..|a|] && a' == s[..|a'|] && b == s[|a|+1..] && b' == s[|a'|+1..];
  }

  /** No two leaves share a key: class names have no NUL. */
  lemma DedupKeyIsInjective(x: Leaf, y: Leaf)
    requires NulFree(x.name) && NulFree(y.name) && DedupKey(x) == DedupKey(y)
    ensures x == y
  {
    DivisionIsUnique(0, x.name, x.canon, y.name, y.canon);
  }

  lemma ClassNamesAreNulFree()
    ensures forall c | c in CLASSES :: NulFree(c.name)
  {
    hide Ascii, NulFree;
    PrintableIsNulFree("uuid"); PrintableIsNulFree("email"); PrintableIsNulFree("jwt");
    PrintableIsNulFree("hexdigest"); PrintableIsNulFree("opaque");
  }

  lemma PrintableIsNulFree(s: string)
    requires forall i | 0 <= i < |s| :: ' ' <= s[i] <= '~'
    ensures NulFree(Ascii(s))
  {
  }

  // ---- the fingerprint ----

  /** What is digested for a leaf. */
  function Keyed(env: Env, x: Leaf): bytes { env.key + Ascii("|") + x.name + Ascii(":") + x.canon }

  function Token(env: Env, x: Leaf): bytes { x.name + Ascii(":") + env.digest(Keyed(env, x)) }

  /** The bytes that are digested, and the token: class, colon, digest. */
  lemma TokenBytes(env: Env, x: Leaf)
    ensures Keyed(env, x) == env.key + [0x7C] + x.name + [0x3A] + x.canon
    ensures Token(env, x) == x.name + [0x3A] + env.digest(env.key + [0x7C] + x.name + [0x3A] + x.canon)
  {
    assert Ascii("|") == [0x7C] && Ascii(":") == [0x3A];
  }

  const COLON: byte := 0x3A

  /** What is digested determines the leaf, and a token its class: two leaves have the same token exactly when they
      are of the same class and the digest does not tell them apart. */
  lemma TokenMeaning(env: Env, x: Leaf, y: Leaf)
    requires COLON !in x.name && COLON !in y.name
    ensures Keyed(env, x) == Keyed(env, y) <==> x == y
    ensures Token(env, x) == Token(env, y) <==>
            x.name == y.name && env.digest(Keyed(env, x)) == env.digest(Keyed(env, y))
  {
    assert Ascii(":") == [COLON];
    var front := env.key + Ascii("|");
    assert Keyed(env, x)[|front|..] == x.name + [COLON] + x.canon;
    assert Keyed(env, y)[|front|..] == y.name + [COLON] + y.canon;
    if Keyed(env, x) == Keyed(env, y) {
      DivisionIsUnique(COLON, x.name, x.canon, y.name, y.canon);
    }
    if Token(env, x) == Token(env, y) {
      DivisionIsUnique(COLON, x.name, env.digest(Keyed(env, x)), y.name, env.digest(Keyed(env, y)));
    }
  }

  function TokOf(env: Env, x: Leaf): Tok<bytes> { Tok(Token(env, x), |x.canon|) }

  function Toks(env: Env, leaves: seq<Leaf>): seq<Tok<bytes>> {
    seq(|leaves|, i requires 0 <= i < |leaves| => TokOf(env, leaves[i]))
  }

  /** At most `maxN` of them; no limit when it is not positive. */
  function Limit<T>(s: seq<T>, maxN: int): seq<T> {
    if 0 < maxN < |s| then s[..maxN] else s
  }

  function Texts(toks: seq<Tok<bytes>>): seq<bytes> {
    seq(|toks|, i requires 0 <= i < |toks| => toks[i].s)
  }

  /** All distinct tokens of a text, in the order of discovery. */
  function Discovered(env: Env, text: bytes): seq<Tok<bytes>> { Toks(env, Distinct(Leaves(env, text))) }

  /** The selected tokens, longest first. */
  function Selected(env: Env, text: bytes, maxN: int): seq<Tok<bytes>> {
    Limit(StableSorted(Discovered(env, text)), maxN)
  }

  function FingerprintOf(env: Env, text: bytes, maxN: int): Option<seq<bytes>> {
    if text == [] || env.credential(text) then None else Some(Texts(Selected(env, text, maxN)))
  }

  predicate AllClassesNulFree(leaves: seq<Leaf>) { forall x | x in leaves :: NulFree(x.name) }

  /** What the loops have done so far: the keys of the leaves met, and a token for each distinct one. */
  ghost predicate Collected(env: Env, met: seq<Leaf>, seen: set<bytes>, toks: seq<Tok<bytes>>) {
    && AllClassesNulFree(met)
    && seen == (set x | x in met :: DedupKey(x))
    && toks == Toks(env, Distinct(met))
  }

  lemma CollectedNext(env: Env, met: seq<Leaf>, seen: set<bytes>, toks: seq<Tok<bytes>>, x: Leaf)
    requires Collected(env, met, seen, toks) && NulFree(x.name)
    ensures if DedupKey(x) in seen then Collected(env, met + [x], seen, toks)
            else Collected(env, met + [x], seen + {DedupKey(x)}, toks + [TokOf(env, x)])
  {
    hide DedupKey, NulFree, Token, Distinct;
    KeysOfAppend(met, x);
    DistinctOfAppend(met, x);
    if DedupKey(x) in seen {
      var y :| y in met && DedupKey(y) == DedupKey(x);
      DedupKeyIsInjective(x, y);
    }
  }

  lemma KeysOfAppend(met: seq<Leaf>, x: Leaf)
    ensures (set y | y in met + [x] :: DedupKey(y)) == (set y | y in met :: DedupKey(y)) + {DedupKey(x)}
  {
    hide DedupKey;
  }

  lemma DistinctOfAppend(met: seq<Leaf>, x: Leaf)
    ensures Distinct(met + [x]) == if x in met then Distinct(met) else Distinct(met) + [x]
  {
    assert (met + [x])[..|met|] == met;
  }

  /** The keyed digest of a leaf under its class, tagged with the class. */
  method BuildToken(env: Env, x: Leaf) returns (t: bytes)
    ensures t == Token(env, x)
  {
    var buf: bytes := [];
    buf := buf + env.key;
    buf := buf + Ascii("|");
    buf := buf + x.name;
    buf := buf + Ascii(":");
    buf := buf + x.canon;
    assert buf == Keyed(env, x);
    t := x.name + Ascii(":") + env.digest(buf);
  }

  /** The matches of one pattern. */
  method CollectMatches(env: Env, c: Class, matches: seq<bytes>, ghost met: seq<Leaf>,
                        seen0: set<bytes>, toks0: seq<Tok<bytes>>)
    returns (seen: set<bytes>, toks: seq<Tok<bytes>>)
    requires Collected(env, met, seen0, toks0) && NulFree(c.name)
    ensures Collected(env, met + Canons(env, c, matches), seen, toks)
  {
    hide Token, DedupKey, NulFree, Collected;
    seen, toks := seen0, toks0;
    ghost var leaves := Canons(env, c, matches);
    assert met + leaves[..0] == met;
    for k := 0 to |matches|
      invariant Collected(env, met + leaves[..k], seen, toks)
    {
      var canon := matches[k];
      if c.lower {
        canon := env.toLower(canon);
      }
      var leaf := Leaf(c.name, canon);
      assert met + leaves[..k+1] == met + leaves[..k] + [leaf];
      CollectedNext(env, met + leaves[..k], seen, toks, leaf);
      if DedupKey(leaf) in seen { continue; }
      seen := seen + {DedupKey(leaf)};
      var t := BuildToken(env, leaf);
      toks := toks + [Tok(t, |canon|)];
    }
    assert leaves[..|matches|] == leaves;
  }

  /** The distinct tokens of a text, in the order of discovery. */
  method Discover(env: Env, classes: seq<Class>, text: bytes) returns (toks: seq<Tok<bytes>>)
    requires forall c | c in classes :: NulFree(c.name)
    ensures toks == Toks(env, Distinct(LeavesFrom(env, classes, text, 0)))
  {
    hide Token, NulFree, Collected, Distinct, Canons;
    var seen: set<bytes> := {};
    toks := [];
    ghost var met: seq<Leaf> := [];
    CollectedNothing(env);
    for p := 0 to |classes|
      invariant Collected(env, met, seen, toks)
      invariant met + LeavesFrom(env, classes, text, p) == LeavesFrom(env, classes, text, 0)
    {
      assert classes[p] in classes;
      ghost var leaves, more := Canons(env, classes[p], env.find(p, text)), LeavesFrom(env, classes, text, p + 1);
      assert met + (leaves + more) == (met + leaves) + more;
      seen, toks := CollectMatches(env, classes[p], env.find(p, text), met, seen, toks);
      met := met + leaves;
    }
    assert met + [] == met;
    CollectedToks(env, met, seen, toks);
  }

  method Fingerprint(env: Env, text: bytes, maxN: int) returns (out: Option<seq<bytes>>)
    ensures out == FingerprintOf(env, text, maxN)
  {
    hide Discovered, StableSorted, Ascii, NulFree, LeavesFrom, Distinct, Token;
    if |text| == 0 || env.credential(text) { return None; }
    ClassNamesAreNulFree();
    var toks := Discover(env, CLASSES, text);
    assert toks == Discovered(env, text) by { DiscoveredIs(env, text); }
    var a := new Tok<bytes>[|toks|](i requires 0 <= i < |toks| => toks[i]);
    assert a[..] == toks;
    StableSort(a);
    var kept := a[..];
    if maxN > 0 && |kept| > maxN {
      kept := kept[..maxN];
    }
    var r := new bytes[|kept|];
    for i := 0 to |kept|
      invariant forall m | 0 <= m < i :: r[m] == kept[m].s
    {
      r[i] := kept[i].s;
    }
    assert r[..] == Texts(kept);
    return Some(r[..]);
  }

  lemma DiscoveredIs(env: Env, text: bytes)
    ensures Discovered(env, text) == Toks(env, Distinct(LeavesFrom(env, CLASSES, text, 0)))
  {
  }

  lemma CollectedNothing(env: Env)
    ensures Collected(env, [], {}, [])
  {
  }

  lemma CollectedToks(env: Env, met: seq<Leaf>, seen: set<bytes>, toks: seq<Tok<bytes>>)
    requires Collected(env, met, seen, toks)
    ensures toks == Toks(env, Distinct(met))
  {
  }

  function ValuesFingerprint(env: Env, values: seq<bytes>, maxN: int): Option<seq<bytes>> {
    if values == [] then None else FingerprintOf(env, JoinLines(values), maxN)
  }

  method FingerprintValues(env: Env, values: seq<bytes>, maxN: int) returns (out: Option<seq<bytes>>)
    ensures out == ValuesFingerprint(env, values, maxN)
  {
    if |values| == 0 { return None; }
    out := Fingerprint(env, JoinLines(values), maxN);
  }

  function JoinLines(values: seq<bytes>): bytes {
    if values == [] then [] else if |values| == 1 then values[0] else values[0] + [0x0A] + JoinLines(values[1..])
  }

  // ---- top-N selection ----

  /** The selection is the front of one list that holds a token for every distinct leaf, longest first, ties in
      the order of discovery; so what is kept is never shorter than what is dropped. */
  lemma SelectionIsTopN(env: Env, text: bytes, maxN: int)
    ensures
      var found, kept := Discovered(env, text), Selected(env, text, maxN);
      var all := StableSorted(found);
      && IsStableSortOf(all, found)
      && kept <= all && |kept| == (if 0 < maxN < |found| then maxN else |found|)
      && Descending(kept)
      && multiset(kept) + multiset(all[|kept|..]) == multiset(found)
      && forall x, y | x in kept && y in all[|kept|..] :: x.n >= y.n
  {
    hide StableSorted, Discovered;
    StableSortedIsStable(Discovered(env, text));
    LimitSplits(StableSorted(Discovered(env, text)), maxN);
  }

  lemma LimitSplits(all: seq<Tok<bytes>>, maxN: int)
    requires Descending(all)
    ensures
      var kept := Limit(all, maxN);
      && kept <= all && |kept| == (if 0 < maxN < |all| then maxN else |all|)
      && Descending(kept)
      && multiset(kept) + multiset(all[|kept|..]) == multiset(all)
      && forall x, y | x in kept && y in all[|kept|..] :: x.n >= y.n
  {
    var kept := Limit(all, maxN);
    assert all == all[..|kept|] + all[|kept|..];
    assert kept == all[..|kept|];
    forall x, y | x in kept && y in all[|kept|..] ensures x.n >= y.n {
      var i :| 0 <= i < |kept| && kept[i] == x;
      var j :| 0 <= j < |all[|kept|..]| && all[|kept|..][j] == y;
      assert all[i] == x && all[|kept|+j] == y;
    }
  }

  /** A smaller limit only cuts the list: the result for `j` is a prefix of the result for `k`, and both of the
      result without limit. */
  lemma SmallerLimitGivesPrefix(env: Env, text: bytes, j: int, k: int)
    requires 0 < j <= k && text != [] && !env.credential(text)
    ensures FingerprintOf(env, text, j).value <= FingerprintOf(env, text, k).value
    ensures FingerprintOf(env, text, k).value <= FingerprintOf(env, text, 0).value
  {
    hide StableSorted, Discovered;
  }

  /** Each token found stands for a different (class, canonical form) pair, and every pair has its token. */
  lemma DiscoveredAreDistinctLeaves(env: Env, text: bytes)
    ensures
      var leaves := Distinct(Leaves(env, text));
      && |Discovered(env, text)| == |leaves|
      && (forall i | 0 <= i < |leaves| :: Discovered(env, text)[i] == TokOf(env, leaves[i]))
      && (forall i, j | 0 <= i < j < |leaves| :: leaves[i] != leaves[j])
      && (forall x :: x in leaves <==> x in Leaves(env, text))
  {
    DistinctMeaning(Leaves(env, text));
  }
}
