/**
 sort.SliceStable as content/content.go uses it: stable sorting of tokens by descending length,
 in place, and why its promise determines the result.
 */
module StableSorting {
  /** Something to sort and the length to sort it by. */
  datatype Tok<T> = Tok(s: T, n: nat)

  predicate Descending<T>(toks: seq<Tok<T>>) {
    forall i, j | 0 <= i < j < |toks| :: toks[i].n >= toks[j].n
  }

  /** `x` behind every token at least as long. */
  function Insert<T>(toks: seq<Tok<T>>, x: Tok<T>): (r: seq<Tok<T>>)
    ensures |r| == |toks| + 1
  {
    var n := |toks|;
    if n == 0 || toks[n-1].n >= x.n then toks + [x] else Insert(toks[..n-1], x) + [toks[n-1]]
  }

  function StableSorted<T>(toks: seq<Tok<T>>): (r: seq<Tok<T>>)
    ensures |r| == |toks|
  {
    if toks == [] then [] else Insert(StableSorted(toks[..|toks|-1]), toks[|toks|-1])
  }

  /** The tokens of length `n`, in order. */
  function OfLength<T>(toks: seq<Tok<T>>, n: nat): seq<Tok<T>> {
    if toks == [] then []
    else OfLength(toks[..|toks|-1], n) + (if toks[|toks|-1].n == n then [toks[|toks|-1]] else [])
  }

  /** The order sort.SliceStable promises: descending, the same tokens, ties left in their order. */
  ghost predicate IsStableSortOf<T>(r: seq<Tok<T>>, toks: seq<Tok<T>>) {
    Descending(r) && multiset(r) == multiset(toks) && forall n :: OfLength(r, n) == OfLength(toks, n)
  }

  /** Where Insert puts its token: behind the last one that is at least as long. */
  lemma {:induction false} InsertPosition<T>(toks: seq<Tok<T>>, x: Tok<T>, j: nat)
    requires j <= |toks|
    requires forall m | j <= m < |toks| :: toks[m].n < x.n
    requires j > 0 ==> toks[j-1].n >= x.n
    ensures Insert(toks, x) == toks[..j] + [x] + toks[j..]
    decreases toks
  {
    var n := |toks|;
    if j < n {
      var front := toks[..n-1];
      InsertPosition(front, x, j);
      assert front[..j] == toks[..j] && front[j..] + [toks[n-1]] == toks[j..];
    } else {
      assert toks[..j] == toks && toks[j..] == [];
    }
  }

  /** In a descending list there is such a position. */
  lemma {:induction false} PositionFor<T>(toks: seq<Tok<T>>, x: Tok<T>) returns (j: nat)
    requires Descending(toks)
    ensures j <= |toks|
    ensures forall m | j <= m < |toks| :: toks[m].n < x.n
    ensures forall m | 0 <= m < j :: toks[m].n >= x.n
  {
    j := |toks|;
    while j > 0 && toks[j-1].n < x.n
      invariant j <= |toks|
      invariant forall m | j <= m < |toks| :: toks[m].n < x.n
    {
      j := j - 1;
    }
  }

  lemma InsertKeepsOrder<T>(toks: seq<Tok<T>>, x: Tok<T>)
    requires Descending(toks)
    ensures Descending(Insert(toks, x))
    ensures multiset(Insert(toks, x)) == multiset(toks) + multiset{x}
  {
    hide Insert, Descending;
    var j := PositionFor(toks, x);
    InsertPosition(toks, x, j);
    JoinIsDescending(toks, x, j);
    assert toks == toks[..j] + toks[j..];
  }

  lemma JoinIsDescending<T>(toks: seq<Tok<T>>, x: Tok<T>, j: nat)
    requires Descending(toks) && j <= |toks|
    requires forall m | j <= m < |toks| :: toks[m].n < x.n
    requires forall m | 0 <= m < j :: toks[m].n >= x.n
    ensures Descending(toks[..j] + [x] + toks[j..])
  {
    var r := toks[..j] + [x] + toks[j..];
    forall p, q | 0 <= p < q < |r| ensures r[p].n >= r[q].n {
      assert r[p] == if p < j then toks[p] else if p == j then x else toks[p-1];
      assert r[q] == if q < j then toks[q] else if q == j then x else toks[q-1];
    }
  }

  lemma {:induction false} InsertAppendsToTies<T>(toks: seq<Tok<T>>, x: Tok<T>, n: nat)
    ensures OfLength(Insert(toks, x), n) == OfLength(toks, n) + (if x.n == n then [x] else [])
    decreases toks
  {
    var k := |toks|;
    if k == 0 || toks[k-1].n >= x.n {
      assert (toks + [x])[..k] == toks;
    } else {
      var front, last := toks[..k-1], toks[k-1];
      InsertAppendsToTies(front, x, n);
      assert (Insert(front, x) + [last])[..k] == Insert(front, x);
    }
  }

  lemma {:induction false} StableSortedIsStable<T>(toks: seq<Tok<T>>)
    ensures IsStableSortOf(StableSorted(toks), toks)
    decreases toks
  {
    if toks == [] {
    } else {
      var front, x := toks[..|toks|-1], toks[|toks|-1];
      StableSortedIsStable(front);
      InsertKeepsOrder(StableSorted(front), x);
      assert toks == front + [x];
      forall n ensures OfLength(StableSorted(toks), n) == OfLength(toks, n) {
        InsertAppendsToTies(StableSorted(front), x, n);
      }
    }
  }

  lemma AppendIsInjective<T>(s: seq<T>, x: T, t: seq<T>, y: T)
    requires s + [x] == t + [y]
    ensures s == t && x == y
  {
    assert |s| == |t|;
    assert s == (s + [x])[..|s|] && t == (t + [y])[..|t|];
    assert x == (s + [x])[|s|] && y == (t + [y])[|t|];
  }

  /** That promise determines the result: every stable sort gives the same list. */
  lemma {:induction false} StableSortIsUnique<T>(a: seq<Tok<T>>, b: seq<Tok<T>>)
    requires Descending(a) && Descending(b)
    requires forall n :: OfLength(a, n) == OfLength(b, n)
    ensures a == b
    decreases |a|
  {
    if a == [] {
      if b != [] { LastLengthIsLeast(a, b); }
    } else {
      LastLengthIsLeast(b, a);
      LastLengthIsLeast(a, b);
      var k, l := |a| - 1, |b| - 1;
      var last := a[k].n;
      assert OfLength(a, last) == OfLength(b, last);
      AppendIsInjective(OfLength(a[..k], last), a[k], OfLength(b[..l], last), b[l]);
      forall n ensures OfLength(a[..k], n) == OfLength(b[..l], n) {
        assert OfLength(a, n) == OfLength(b, n);
        if n != last {
          assert OfLength(a, n) == OfLength(a[..k], n) + [] == OfLength(a[..k], n);
          assert OfLength(b, n) == OfLength(b[..l], n) + [] == OfLength(b[..l], n);
        }
      }
      StableSortIsUnique(a[..k], b[..l]);
      assert a == a[..k] + [a[k]] && b == b[..l] + [b[l]];
    }
  }

  /** Tokens of a length that occurs in `b` occur in `a` too, so the last of `a` is no longer than the last of `b`. */
  lemma LastLengthIsLeast<T>(a: seq<Tok<T>>, b: seq<Tok<T>>)
    requires Descending(a) && b != []
    requires forall n :: OfLength(a, n) == OfLength(b, n)
    ensures a != [] && a[|a|-1].n <= b[|b|-1].n
  {
    var last := b[|b|-1];
    assert OfLength(b, last.n) != [];
    OfLengthOccurs(a, last.n);
  }

  lemma {:induction false} OfLengthOccurs<T>(toks: seq<Tok<T>>, n: nat)
    ensures OfLength(toks, n) != [] ==> exists i | 0 <= i < |toks| :: toks[i].n == n
    decreases toks
  {
    if toks == [] {
    } else {
      var front := toks[..|toks|-1];
      OfLengthOccurs(front, n);
      if i :| 0 <= i < |front| && front[i].n == n {
        assert toks[i].n == n;
      }
    }
  }

  // ---- repetitions ----

  ghost predicate Repeats<T>(toks: seq<Tok<T>>) {
    exists i, j | 0 <= i < j < |toks| :: toks[i].s == toks[j].s
  }

  lemma CountOfTwo<T>(toks: seq<Tok<T>>, i: nat, j: nat)
    requires i < j < |toks| && toks[i] == toks[j]
    ensures multiset(toks)[toks[i]] >= 2
  {
    var front := toks[..j];
    assert toks == front + [toks[j]] + toks[j+1..];
    assert front[i] == toks[i];
    assert toks[i] in multiset(front);
  }

  lemma TwoOfCount<T>(toks: seq<Tok<T>>, x: Tok<T>)
    requires multiset(toks)[x] >= 2
    ensures Repeats(toks)
  {
    assert x in multiset(toks);
    var i :| 0 <= i < |toks| && toks[i] == x;
    var others := toks[..i] + toks[i+1..];
    assert toks == toks[..i] + [x] + toks[i+1..];
    assert multiset(toks) == multiset(others) + multiset{x};
    assert x in multiset(others);
    var k :| 0 <= k < |others| && others[k] == x;
    if k < i { assert toks[k].s == toks[i].s; } else { assert toks[i].s == toks[k+1].s; }
  }

  /** A permutation repeats a text exactly when the original does. */
  lemma PermutationRepeats<T>(a: seq<Tok<T>>, b: seq<Tok<T>>)
    requires multiset(a) == multiset(b) && Repeats(a)
    ensures Repeats(b)
  {
    var i, j :| 0 <= i < j < |a| && a[i].s == a[j].s;
    if a[i] == a[j] {
      CountOfTwo(a, i, j);
      TwoOfCount(b, a[i]);
    } else {
      assert a[i] in multiset(b) && a[j] in multiset(b);
      var p :| 0 <= p < |b| && b[p] == a[i];
      var q :| 0 <= q < |b| && b[q] == a[j];
      assert b[p].s == b[q].s;
    }
  }

  // ---- in place ----

  /** Move a[i] left to its place among a[..i]. */
  method InsertInto<T>(a: array<Tok<T>>, i: nat)
    requires i < a.Length
    modifies a
    ensures a[..i+1] == Insert(old(a[..i]), old(a[i]))
    ensures forall m | i < m < a.Length :: a[m] == old(a[m])
  {
    hide Insert;
    ghost var front := a[..i];
    var x := a[i];
    var j := i;
    while j > 0 && a[j-1].n < x.n
      invariant 0 <= j <= i
      invariant forall m | 0 <= m < j :: a[m] == front[m]
      invariant forall m | j < m <= i :: a[m] == front[m-1]
      invariant forall m | i < m < a.Length :: a[m] == old(a[m])
      invariant forall m | j <= m < i :: front[m].n < x.n
    {
      a[j] := a[j-1];
      j := j - 1;
    }
    a[j] := x;
    InsertPosition(front, x, j);
    assert a[..i+1] == front[..j] + [x] + front[j..];
  }

  /** An in-place stable sort, as sort.SliceStable is one. */
  method StableSort<T>(a: array<Tok<T>>)
    modifies a
    ensures a[..] == StableSorted(old(a[..]))
  {
    hide Insert;
    ghost var was := a[..];
    for i := 0 to a.Length
      invariant a[..i] == StableSorted(was[..i])
      invariant forall m | i <= m < a.Length :: a[m] == was[m]
    {
      InsertInto(a, i);
      assert was[..i+1][..i] == was[..i] && was[..i+1][i] == was[i];
    }
    assert a[..] == a[..a.Length] && was == was[..a.Length];
  }
}
