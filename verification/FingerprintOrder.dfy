/**
 content/content.go: the order of a fingerprint in terms of leaves, and when the fingerprint of a
 set of values is the concatenation of the fingerprints of the values.
 */
module FingerprintOrder {
  import opened Bytes
  import opened StableSorting
  import opened Fingerprint
  import opened FingerprintTokens

  // ---- a fingerprint as a list of leaves ----

  function LeafToks(leaves: seq<Leaf>): seq<Tok<Leaf>> {
    seq(|leaves|, i requires 0 <= i < |leaves| => Tok(leaves[i], |leaves[i].canon|))
  }

  /** The distinct leaves of a text, longest first, ties in the order of discovery. */
  function Ranked(env: Env, text: bytes): seq<Tok<Leaf>> {
    StableSorted(LeafToks(Distinct(Leaves(env, text))))
  }

  /** The tokens that stand for them. */
  function TokensOf(env: Env, ranked: seq<Tok<Leaf>>): seq<Tok<bytes>> {
    seq(|ranked|, i requires 0 <= i < |ranked| => Tok(Token(env, ranked[i].s), ranked[i].n))
  }

  lemma TokensOfAppend(env: Env, a: seq<Tok<Leaf>>, b: seq<Tok<Leaf>>)
    ensures TokensOf(env, a + b) == TokensOf(env, a) + TokensOf(env, b)
  {
    hide Token;
  }

  lemma {:induction false} InsertingCommutes(env: Env, toks: seq<Tok<Leaf>>, x: Tok<Leaf>)
    ensures Insert(TokensOf(env, toks), Tok(Token(env, x.s), x.n)) == TokensOf(env, Insert(toks, x))
    decreases toks
  {
    hide Token;
    var n := |toks|;
    if n == 0 || toks[n-1].n >= x.n {
    } else {
      InsertingCommutes(env, toks[..n-1], x);
      assert TokensOf(env, toks)[..n-1] == TokensOf(env, toks[..n-1]);
    }
  }

  lemma {:induction false} SortingCommutes(env: Env, toks: seq<Tok<Leaf>>)
    ensures StableSorted(TokensOf(env, toks)) == TokensOf(env, StableSorted(toks))
    decreases toks
  {
    hide Token, Insert;
    if toks == [] {
    } else {
      var front, x := toks[..|toks|-1], toks[|toks|-1];
      SortingCommutes(env, front);
      assert TokensOf(env, toks)[..|toks|-1] == TokensOf(env, front);
      InsertingCommutes(env, StableSorted(front), x);
    }
  }

  /** What is selected are the tokens of the ranked leaves. */
  lemma SelectedIsRanked(env: Env, text: bytes, maxN: int)
    ensures Selected(env, text, maxN) == Limit(TokensOf(env, Ranked(env, text)), maxN)
  {
    hide Token, Distinct, Leaves, StableSorted;
    var leaves := Distinct(Leaves(env, text));
    assert Discovered(env, text) == TokensOf(env, LeafToks(leaves));
    SortingCommutes(env, LeafToks(leaves));
  }

  // ---- leaves of one length ----

  function OfCanonLength(leaves: seq<Leaf>, n: nat): seq<Leaf> {
    if leaves == [] then []
    else
      var front, x := leaves[..|leaves|-1], leaves[|leaves|-1];
      OfCanonLength(front, n) + (if |x.canon| == n then [x] else [])
  }

  lemma {:induction false} OfCanonLengthMeaning(leaves: seq<Leaf>, n: nat)
    ensures forall x :: x in OfCanonLength(leaves, n) <==> x in leaves && |x.canon| == n
    decreases leaves
  {
    if leaves == [] {
    } else {
      var front := leaves[..|leaves|-1];
      OfCanonLengthMeaning(front, n);
      assert leaves == front + [leaves[|leaves|-1]];
    }
  }

  lemma {:induction false} OfCanonLengthIs(leaves: seq<Leaf>, n: nat)
    ensures OfLength(LeafToks(leaves), n) == LeafToks(OfCanonLength(leaves, n))
    decreases leaves
  {
    if leaves == [] {
    } else {
      var front := leaves[..|leaves|-1];
      OfCanonLengthIs(front, n);
      assert LeafToks(leaves)[..|leaves|-1] == LeafToks(front);
    }
  }

  lemma {:induction false} OfCanonLengthOfConcat(a: seq<Leaf>, b: seq<Leaf>, n: nat)
    ensures OfCanonLength(a + b, n) == OfCanonLength(a, n) + OfCanonLength(b, n)
    decreases b
  {
    if b == [] {
      assert a + b == a;
    } else {
      var front := b[..|b|-1];
      assert (a + b)[..|a+b|-1] == a + front;
      OfCanonLengthOfConcat(a, front, n);
    }
  }

  lemma {:induction false} OfLengthOfConcat<T>(a: seq<Tok<T>>, b: seq<Tok<T>>, n: nat)
    ensures OfLength(a + b, n) == OfLength(a, n) + OfLength(b, n)
    decreases b
  {
    if b == [] {
      assert a + b == a;
    } else {
      var front := b[..|b|-1];
      assert (a + b)[..|a+b|-1] == a + front;
      OfLengthOfConcat(a, front, n);
    }
  }

  /** Dropping repetitions and keeping one length can be done in either order. */
  lemma {:induction false} DistinctOfLength(leaves: seq<Leaf>, n: nat)
    ensures OfCanonLength(Distinct(leaves), n) == Distinct(OfCanonLength(leaves, n))
    decreases leaves
  {
    if leaves == [] {
    } else {
      var front, x := leaves[..|leaves|-1], leaves[|leaves|-1];
      DistinctOfLength(front, n);
      OfCanonLengthMeaning(front, n);
      OfCanonLengthOfConcat(Distinct(front), [x], n);
      DistinctOfAppend(OfCanonLength(front, n), x);
      OneOfLength(x, n);
      assert OfCanonLength(leaves, n) == OfCanonLength(front, n) + OfCanonLength([x], n);
      assert forall s: seq<Leaf> :: s + [] == s;
    }
  }

  lemma OneOfLength(x: Leaf, n: nat)
    ensures OfCanonLength([x], n) == if |x.canon| == n then [x] else []
  {
    assert [x][..0] == [];
  }

  lemma {:induction false} DistinctOfDisjoint(a: seq<Leaf>, b: seq<Leaf>)
    requires forall x | x in a :: x !in b
    ensures Distinct(a + b) == Distinct(a) + Distinct(b)
    decreases b
  {
    if b == [] {
      assert a + b == a;
    } else {
      var front, x := b[..|b|-1], b[|b|-1];
      assert b == front + [x];
      assert a + b == (a + front) + [x];
      DistinctOfDisjoint(a, front);
      DistinctOfAppend(a + front, x);
      DistinctOfAppend(front, x);
    }
  }

  // ---- classes in order ----

  /** The number of a class in the list of patterns. */
  function Rank(name: bytes): nat { RankFrom(name, 0) }

  function RankFrom(name: bytes, p: nat): nat
    decreases |CLASSES| - p
  {
    if p >= |CLASSES| || CLASSES[p].name == name then p else RankFrom(name, p + 1)
  }

  lemma ClassNamesDiffer()
    ensures forall p, q | 0 <= p < q < |CLASSES| :: CLASSES[p].name != CLASSES[q].name
  {
    assert forall p | 0 <= p < |CLASSES| :: |CLASSES[p].name| == [4, 5, 3, 9, 6][p];
  }

  lemma {:induction false} RankFromSkips(p: nat, from: nat)
    requires from <= p < |CLASSES|
    ensures RankFrom(CLASSES[p].name, from) == p
    decreases p - from
  {
    hide Ascii;
    ClassNamesDiffer();
    if from == p {
    } else {
      RankFromSkips(p, from + 1);
    }
  }

  predicate RankSorted(leaves: seq<Leaf>) {
    forall i, j | 0 <= i < j < |leaves| :: Rank(leaves[i].name) <= Rank(leaves[j].name)
  }

  /** The leaves of a text are discovered class by class. */
  lemma {:induction false} LeavesAreRankSorted(env: Env, text: bytes, from: nat)
    requires from <= |CLASSES|
    ensures RankSorted(LeavesFrom(env, CLASSES, text, from))
    ensures forall x | x in LeavesFrom(env, CLASSES, text, from) :: from <= Rank(x.name)
    decreases |CLASSES| - from
  {
    hide RankFrom, Ascii;
    if from == |CLASSES| {
    } else {
      LeavesAreRankSorted(env, text, from + 1);
      RankFromSkips(from, 0);
    }
  }

  lemma {:induction false} DistinctKeepsRanks(leaves: seq<Leaf>)
    requires RankSorted(leaves)
    ensures RankSorted(Distinct(leaves))
    decreases leaves
  {
    hide Rank;
    if leaves == [] {
    } else {
      var front := leaves[..|leaves|-1];
      DistinctKeepsRanks(front);
      DistinctMeaning(front);
      forall i | 0 <= i < |Distinct(front)| ensures Rank(Distinct(front)[i].name) <= Rank(leaves[|leaves|-1].name) {
        assert Distinct(front)[i] in Distinct(front);
        var k :| 0 <= k < |front| && front[k] == Distinct(front)[i];
      }
    }
  }

  lemma {:induction false} OfCanonLengthKeepsRanks(leaves: seq<Leaf>, n: nat)
    requires RankSorted(leaves)
    ensures RankSorted(OfCanonLength(leaves, n))
    decreases leaves
  {
    hide Rank;
    if leaves == [] {
    } else {
      var front := leaves[..|leaves|-1];
      OfCanonLengthKeepsRanks(front, n);
      OfCanonLengthMeaning(front, n);
    }
  }

  // ---- two values ----

  /** Leaf `x` of an earlier value goes before leaf `y` of a later one: it is longer, or as long, different, and of no
      later class. */
  predicate InOrder(x: Leaf, y: Leaf) {
    |x.canon| > |y.canon| || (|x.canon| == |y.canon| && x != y && Rank(x.name) <= Rank(y.name))
  }

  ghost predicate AllInOrder(a: seq<Leaf>, b: seq<Leaf>) {
    forall x, y | x in a && y in b :: InOrder(x, y)
  }

  lemma CanonsOfTwo(env: Env, a: bytes, b: bytes, p: nat)
    requires LocalToLines(env) && p < |CLASSES|
    ensures Canons(env, CLASSES[p], env.find(p, a + [NEWLINE] + b)) ==
            Canons(env, CLASSES[p], env.find(p, a)) + Canons(env, CLASSES[p], env.find(p, b))
  {
    hide Canon;
  }

  /** When all leaves are in order, the leaves of any one length are found value by value. */
  lemma {:induction false} OneLengthOfTwo(env: Env, a: bytes, b: bytes, from: nat, n: nat)
    requires LocalToLines(env) && from <= |CLASSES|
    requires AllInOrder(LeavesFrom(env, CLASSES, a, from), LeavesFrom(env, CLASSES, b, from))
    ensures OfCanonLength(LeavesFrom(env, CLASSES, a + [NEWLINE] + b, from), n) ==
            OfCanonLength(LeavesFrom(env, CLASSES, a, from), n) + OfCanonLength(LeavesFrom(env, CLASSES, b, from), n)
    decreases |CLASSES| - from
  {
    hide Canons, Rank, LocalToLines, OfCanonLength;
    if from == |CLASSES| {
      NothingOfLength(n);
    } else {
      var ca, cb := Canons(env, CLASSES[from], env.find(from, a)), Canons(env, CLASSES[from], env.find(from, b));
      var la, lb := LeavesFrom(env, CLASSES, a, from + 1), LeavesFrom(env, CLASSES, b, from + 1);
      CanonsOfTwo(env, a, b, from);
      OneLengthOfTwo(env, a, b, from + 1, n);
      OfCanonLengthOfConcat(ca, la, n);
      OfCanonLengthOfConcat(cb, lb, n);
      OfCanonLengthOfConcat(ca, cb, n);
      OfCanonLengthOfConcat(ca + cb, LeavesFrom(env, CLASSES, a + [NEWLINE] + b, from + 1), n);
      OneSideIsEmpty(env, a, b, from, n);
      var (x, y, z, w) := (OfCanonLength(ca, n), OfCanonLength(cb, n), OfCanonLength(la, n), OfCanonLength(lb, n));
      assert (x + y) + (z + w) == (x + z) + (y + w);
    }
  }

  lemma NothingOfLength(n: nat)
    ensures OfCanonLength([], n) == []
  {
  }

  /** If the later value has a leaf of this class and length, the earlier one has none that long of a later class. */
  lemma OneSideIsEmpty(env: Env, a: bytes, b: bytes, from: nat, n: nat)
    requires from < |CLASSES|
    requires AllInOrder(LeavesFrom(env, CLASSES, a, from), LeavesFrom(env, CLASSES, b, from))
    ensures OfCanonLength(Canons(env, CLASSES[from], env.find(from, b)), n) == []
            || OfCanonLength(LeavesFrom(env, CLASSES, a, from + 1), n) == []
  {
    hide Rank, OfCanonLength, LeavesFrom;
    var cb, la := Canons(env, CLASSES[from], env.find(from, b)), LeavesFrom(env, CLASSES, a, from + 1);
    OfCanonLengthMeaning(cb, n);
    OfCanonLengthMeaning(la, n);
    if OfCanonLength(cb, n) != [] && OfCanonLength(la, n) != [] {
      var y, x := OfCanonLength(cb, n)[0], OfCanonLength(la, n)[0];
      LeavesStep(env, a, from);
      LeavesStep(env, b, from);
      assert InOrder(x, y);
      RankIs(y.name, from);
      LeavesAreRankSorted(env, a, from + 1);
    }
  }

  lemma RankIs(name: bytes, p: nat)
    requires p < |CLASSES| && name == CLASSES[p].name
    ensures Rank(name) == p
  {
    RankFromSkips(p, 0);
  }

  lemma LeavesStep(env: Env, text: bytes, from: nat)
    requires from < |CLASSES|
    ensures LeavesFrom(env, CLASSES, text, from) ==
            Canons(env, CLASSES[from], env.find(from, text)) + LeavesFrom(env, CLASSES, text, from + 1)
  {
  }

  /** Two values whose leaves are in order are ranked one after the other. */
  lemma RankedOfTwo(env: Env, a: bytes, b: bytes)
    requires LocalToLines(env) && AllInOrder(Leaves(env, a), Leaves(env, b))
    ensures Ranked(env, a + [NEWLINE] + b) == Ranked(env, a) + Ranked(env, b)
  {
    hide Rank, LeavesFrom, Distinct, StableSorted, LocalToLines;
    var text := a + [NEWLINE] + b;
    var da, db, dt := Distinct(Leaves(env, a)), Distinct(Leaves(env, b)), Distinct(Leaves(env, text));
    StableSortedIsStable(LeafToks(da));
    StableSortedIsStable(LeafToks(db));
    StableSortedIsStable(LeafToks(dt));
    forall n ensures OfLength(Ranked(env, text), n) == OfLength(Ranked(env, a) + Ranked(env, b), n) {
      OfLengthOfConcat(Ranked(env, a), Ranked(env, b), n);
      OneLengthOfDistinct(env, a, b, n);
    }
    CrossingDescends(env, a, b);
    StableSortIsUnique(Ranked(env, text), Ranked(env, a) + Ranked(env, b));
  }

  lemma OneLengthOfDistinct(env: Env, a: bytes, b: bytes, n: nat)
    requires LocalToLines(env) && AllInOrder(Leaves(env, a), Leaves(env, b))
    ensures
      var (da, db) := (Distinct(Leaves(env, a)), Distinct(Leaves(env, b)));
      var dt := Distinct(Leaves(env, a + [NEWLINE] + b));
      OfLength(LeafToks(dt), n) == OfLength(LeafToks(da), n) + OfLength(LeafToks(db), n)
  {
    hide Rank, LeavesFrom, Distinct, LocalToLines, OfLength, OfCanonLength;
    var text := a + [NEWLINE] + b;
    var la, lb := Leaves(env, a), Leaves(env, b);
    OneLengthOfTwo(env, a, b, 0, n);
    OfCanonLengthMeaning(la, n);
    OfCanonLengthMeaning(lb, n);
    DistinctOfDisjoint(OfCanonLength(la, n), OfCanonLength(lb, n));
    DistinctOfLength(la, n);
    DistinctOfLength(lb, n);
    DistinctOfLength(Leaves(env, text), n);
    OfCanonLengthIs(Distinct(la), n);
    OfCanonLengthIs(Distinct(lb), n);
    OfCanonLengthIs(Distinct(Leaves(env, text)), n);
  }

  lemma RankedMeaning(env: Env, text: bytes)
    ensures Descending(Ranked(env, text)) && !Repeats(Ranked(env, text))
    ensures forall t :: t in Ranked(env, text) <==> t.s in Leaves(env, text) && t.n == |t.s.canon|
  {
    hide Distinct, StableSorted, Leaves;
    var leaves := Distinct(Leaves(env, text));
    var toks := LeafToks(leaves);
    DistinctMeaning(Leaves(env, text));
    StableSortedIsStable(toks);
    if Repeats(Ranked(env, text)) { PermutationRepeats(Ranked(env, text), toks); }
    forall t ensures t in Ranked(env, text) <==> t.s in Leaves(env, text) && t.n == |t.s.canon| {
      assert t in Ranked(env, text) <==> t in multiset(toks);
      if t.s in leaves && t.n == |t.s.canon| {
        var i :| 0 <= i < |leaves| && leaves[i] == t.s;
        assert toks[i] == t;
      }
    }
  }

  lemma CrossingDescends(env: Env, a: bytes, b: bytes)
    requires AllInOrder(Leaves(env, a), Leaves(env, b))
    ensures Descending(Ranked(env, a) + Ranked(env, b))
  {
    hide Rank, Ranked, Leaves;
    RankedMeaning(env, a);
    RankedMeaning(env, b);
    var ra, rb := Ranked(env, a), Ranked(env, b);
    var r := ra + rb;
    forall i, j | 0 <= i < j < |r| ensures r[i].n >= r[j].n {
      if i < |ra| <= j {
        assert ra[i] in ra && rb[j-|ra|] in rb;
        assert InOrder(ra[i].s, rb[j-|ra|].s);
      }
    }
  }

  // ---- any number of values ----

  /** The ranked leaves of the values, one value after the other. */
  function ConcatRanked(env: Env, values: seq<bytes>): seq<Tok<Leaf>> {
    if values == [] then [] else Ranked(env, values[0]) + ConcatRanked(env, values[1..])
  }

  /** Every leaf of an earlier value goes before every leaf of a later one. */
  ghost predicate ValuesInOrder(env: Env, values: seq<bytes>) {
    forall i, j | 0 <= i < j < |values| :: AllInOrder(Leaves(env, values[i]), Leaves(env, values[j]))
  }

  lemma {:induction false} InOrderGivesConcat(env: Env, values: seq<bytes>)
    requires LocalToLines(env) && values != [] && ValuesInOrder(env, values)
    ensures Ranked(env, JoinLines(values)) == ConcatRanked(env, values)
    decreases values
  {
    hide Ranked, Leaves, LocalToLines, InOrder;
    if |values| == 1 {
      assert values[1..] == [];
    } else {
      var v, more := values[0], values[1..];
      assert forall j | 0 <= j < |more| :: more[j] == values[j+1];
      InOrderGivesConcat(env, more);
      LeavesOfLines(env, more);
      forall x, y | x in Leaves(env, v) && y in Leaves(env, JoinLines(more)) ensures InOrder(x, y) {
        var w :| w in more && y in Leaves(env, w);
        var j :| 0 <= j < |more| && more[j] == w;
        assert AllInOrder(Leaves(env, values[0]), Leaves(env, values[j+1]));
      }
      RankedOfTwo(env, v, JoinLines(more));
    }
  }

  /** Where in the concatenation a leaf of a value stands. */
  lemma {:induction false} PlaceInConcat(env: Env, values: seq<bytes>, j: nat, y: Leaf) returns (q: nat)
    requires j < |values| && y in Leaves(env, values[j])
    ensures q < |ConcatRanked(env, values)| && ConcatRanked(env, values)[q] == Tok(y, |y.canon|)
    decreases values
  {
    hide Ranked, Leaves;
    if j == 0 {
      RankedMeaning(env, values[0]);
      assert Tok(y, |y.canon|) in Ranked(env, values[0]);
      q :| 0 <= q < |Ranked(env, values[0])| && Ranked(env, values[0])[q] == Tok(y, |y.canon|);
    } else {
      q := PlaceInConcat(env, values[1..], j - 1, y);
      q := q + |Ranked(env, values[0])|;
    }
  }

  lemma {:induction false} PlacesInConcat(env: Env, values: seq<bytes>, i: nat, j: nat, x: Leaf, y: Leaf)
    returns (p: nat, q: nat)
    requires i < j < |values| && x in Leaves(env, values[i]) && y in Leaves(env, values[j])
    ensures p < q < |ConcatRanked(env, values)|
    ensures ConcatRanked(env, values)[p] == Tok(x, |x.canon|) && ConcatRanked(env, values)[q] == Tok(y, |y.canon|)
    decreases values
  {
    hide Ranked, Leaves;
    var offset := |Ranked(env, values[0])|;
    if i == 0 {
      RankedMeaning(env, values[0]);
      assert Tok(x, |x.canon|) in Ranked(env, values[0]);
      p :| 0 <= p < offset && Ranked(env, values[0])[p] == Tok(x, |x.canon|);
      q := PlaceInConcat(env, values[1..], j - 1, y);
      q := q + offset;
    } else {
      p, q := PlacesInConcat(env, values[1..], i - 1, j - 1, x, y);
      p, q := p + offset, q + offset;
    }
  }

  /** Two tokens of one length keep their places in the list of that length. */
  lemma {:induction false} PlacesOfLength<T>(toks: seq<Tok<T>>, p: nat, q: nat) returns (k: nat, l: nat)
    requires p < q < |toks| && toks[p].n == toks[q].n
    ensures
      var same := OfLength(toks, toks[p].n);
      k < l < |same| && same[k] == toks[p] && same[l] == toks[q]
    decreases toks
  {
    var last := |toks| - 1;
    var front := toks[..last];
    if q < last {
      k, l := PlacesOfLength(front, p, q);
    } else {
      k := PlaceOfLength(front, p);
      l := |OfLength(front, toks[p].n)|;
    }
  }

  lemma {:induction false} PlaceOfLength<T>(toks: seq<Tok<T>>, p: nat) returns (k: nat)
    requires p < |toks|
    ensures k < |OfLength(toks, toks[p].n)| && OfLength(toks, toks[p].n)[k] == toks[p]
    decreases toks
  {
    var last := |toks| - 1;
    if p < last {
      k := PlaceOfLength(toks[..last], p);
    } else {
      k := |OfLength(toks[..last], toks[p].n)|;
    }
  }

  /** A ranking puts longer leaves first, and leaves of one length in the order of their classes. */
  lemma RankedIsInOrder(env: Env, text: bytes, p: nat, q: nat)
    requires p < q < |Ranked(env, text)|
    ensures InOrder(Ranked(env, text)[p].s, Ranked(env, text)[q].s)
  {
    hide Rank, Distinct, LeavesFrom;
    var r, leaves := Ranked(env, text), Distinct(Leaves(env, text));
    RankedMeaning(env, text);
    assert r[p] in r && r[q] in r;
    if r[p].n == r[q].n {
      var n := r[p].n;
      var k, l := PlacesOfLength(r, p, q);
      StableSortedIsStable(LeafToks(leaves));
      OfCanonLengthIs(leaves, n);
      var same := OfCanonLength(leaves, n);
      assert OfLength(r, n) == LeafToks(same);
      LeavesAreRankSorted(env, text, 0);
      DistinctKeepsRanks(Leaves(env, text));
      OfCanonLengthKeepsRanks(leaves, n);
    }
  }

  /** The fingerprint of values, as leaves and without a limit, is the concatenation of the fingerprints of the
      values exactly when every leaf of an earlier value goes before every leaf of a later one. */
  lemma ConcatenationWhen(env: Env, values: seq<bytes>)
    requires LocalToLines(env) && values != []
    ensures Ranked(env, JoinLines(values)) == ConcatRanked(env, values) <==> ValuesInOrder(env, values)
  {
    hide Ranked, Leaves, LocalToLines, InOrder, ConcatRanked;
    if ValuesInOrder(env, values) {
      InOrderGivesConcat(env, values);
    }
    if Ranked(env, JoinLines(values)) == ConcatRanked(env, values) {
      forall i, j, x, y | 0 <= i < j < |values| && x in Leaves(env, values[i]) && y in Leaves(env, values[j])
        ensures InOrder(x, y)
      {
        var p, q := PlacesInConcat(env, values, i, j, x, y);
        RankedIsInOrder(env, JoinLines(values), p, q);
      }
    }
  }

  /** The fingerprints of the values, one after the other. */
  function Concatenated(env: Env, values: seq<bytes>): seq<bytes> {
    if values == [] then [] else Texts(Selected(env, values[0], 0)) + Concatenated(env, values[1..])
  }

  lemma {:induction false} ConcatenatedIsRanked(env: Env, values: seq<bytes>)
    ensures Concatenated(env, values) == Texts(TokensOf(env, ConcatRanked(env, values)))
    decreases values
  {
    hide Ranked, Selected, Token;
    if values == [] {
    } else {
      ConcatenatedIsRanked(env, values[1..]);
      SelectedIsRanked(env, values[0], 0);
      TokensOfAppend(env, Ranked(env, values[0]), ConcatRanked(env, values[1..]));
    }
  }

  lemma LimitOfTexts(toks: seq<Tok<bytes>>, maxN: int)
    ensures Texts(Limit(toks, maxN)) == Limit(Texts(toks), maxN)
  {
  }

  /** The comment on FingerprintValues holds, under any limit, for values whose leaves are in order. */
  lemma ConcatenatedWhenInOrder(env: Env, values: seq<bytes>, maxN: int)
    requires LocalToLines(env) && ValuesFingerprint(env, values, maxN).Some? && ValuesInOrder(env, values)
    ensures ValuesFingerprint(env, values, maxN) == Some(Limit(Concatenated(env, values), maxN))
  {
    hide Ranked, Selected, LocalToLines, ValuesInOrder, Token, Texts, JoinLines, Limit, TokensOf, ConcatRanked;
    InOrderGivesConcat(env, values);
    ConcatenatedIsRanked(env, values);
    SelectedIsRanked(env, JoinLines(values), maxN);
    LimitOfTexts(TokensOf(env, ConcatRanked(env, values)), maxN);
  }

  lemma {:induction false} ConcatRankedLeaves(env: Env, values: seq<bytes>, k: nat)
    requires k < |ConcatRanked(env, values)|
    ensures
      var t := ConcatRanked(env, values)[k];
      t.n == |t.s.canon| && exists v | v in values :: t.s in Leaves(env, v)
    decreases values
  {
    hide Ranked, Leaves;
    var first := Ranked(env, values[0]);
    if k < |first| {
      RankedMeaning(env, values[0]);
      assert first[k] in first;
    } else {
      ConcatRankedLeaves(env, values[1..], k - |first|);
    }
  }

  /** It holds for no others, unless the digest fails to tell two of the leaves apart. */
  lemma ConcatenatedOnlyInOrder(env: Env, values: seq<bytes>)
    requires LocalToLines(env) && ValuesFingerprint(env, values, 0).Some?
    requires !Collides(env, Leaves(env, JoinLines(values)))
    requires ValuesFingerprint(env, values, 0).value == Concatenated(env, values)
    ensures ValuesInOrder(env, values)
  {
    hide Ranked, Selected, LocalToLines, ValuesInOrder, Token, JoinLines, ConcatRanked, Leaves, Keyed, Collides;
    var text := JoinLines(values);
    var r, c := Ranked(env, text), ConcatRanked(env, values);
    ConcatenatedIsRanked(env, values);
    SelectedIsRanked(env, text, 0);
    RankedMeaning(env, text);
    LeavesOfLines(env, values);
    assert |r| == |c|;
    forall k | 0 <= k < |r| ensures r[k] == c[k] {
      assert Texts(TokensOf(env, r))[k] == Texts(TokensOf(env, c))[k];
      assert r[k] in r;
      ConcatRankedLeaves(env, values, k);
      NoCollision(env, text, r[k].s, c[k].s);
    }
    assert r == c;
    ConcatenationWhen(env, values);
  }

  lemma NoCollision(env: Env, text: bytes, x: Leaf, y: Leaf)
    requires x in Leaves(env, text) && y in Leaves(env, text) && !Collides(env, Leaves(env, text))
    requires Token(env, x) == Token(env, y)
    ensures x == y
  {
    hide Leaves, Token, Keyed;
    LeavesAreColonFree(env, text);
    TokenMeaning(env, x, y);
  }
}
