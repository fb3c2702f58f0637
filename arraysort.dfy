/**
  `Array.prototype.sort` as the table and `sortByProperty` call it: rows compared on one
  property with `<` / `>`.  ECMAScript requires the sort to be stable and to produce a
  sorted permutation whenever the comparator is consistent; this model is a stable
  insertion sort, and its lemmas state exactly those guarantees.  When the property's
  values are not of one comparable kind the comparator is inconsistent and the real order
  is implementation-defined; the model then still returns a permutation.
 */
module ArraySort {
  import opened JsValues
  import Seqs

  datatype Direction = Asc | Desc

  /**
    Row `a` must come before row `b`: `a[f] < b[f]` ascending, `a[f] > b[f]` descending.
    This is when the comparator `(a, b) => ...` returns a negative number.
   */
  predicate Before(a: Row, b: Row, f: string, dir: Direction)
  {
    if dir == Asc then Less(Get(a, f), Get(b, f)) else Less(Get(b, f), Get(a, f))
  }

  /** Places `x`, which came before every row of `t`, after the rows of `t` that must precede it. */
  function InsertFront(x: Row, t: seq<Row>, f: string, dir: Direction): seq<Row>
  {
    if t == [] then [x]
    else if Before(t[0], x, f, dir) then [t[0]] + InsertFront(x, t[1..], f, dir)
    else [x] + t
  }

  /** The rows of `s` sorted on property `f`, ties kept in their original order. */
  function SortRows(s: seq<Row>, f: string, dir: Direction): seq<Row>
  {
    if s == [] then [] else InsertFront(s[0], SortRows(s[1..], f, dir), f, dir)
  }

  /** No row is strictly before an earlier one: non-decreasing (asc) or non-increasing (desc) on `f`. */
  predicate SortedOn(s: seq<Row>, f: string, dir: Direction)
  {
    forall i, j :: 0 <= i < j < |s| ==> !Before(s[j], s[i], f, dir)
  }

  /** All values of property `f` are of one kind, so `<` orders them consistently. */
  predicate Comparable(s: seq<Row>, f: string)
  {
    forall x, y :: x in s && y in s ==> SameKind(Get(x, f), Get(y, f))
  }

  /** No two different rows have tied values of property `f`. */
  predicate DistinctKeys(s: seq<Row>, f: string)
  {
    forall x, y :: x in s && y in s && x != y ==> !Tied(Get(x, f), Get(y, f))
  }

  /** The rows of `s` whose property `f` is tied with `v`, in their order in `s`. */
  function TiesOf(s: seq<Row>, f: string, v: Value): seq<Row>
  {
    Seqs.Filter(s, (r: Row) => Tied(Get(r, f), v))
  }

  lemma {:induction false} InsertFrontPermutes(x: Row, t: seq<Row>, f: string, dir: Direction)
    ensures multiset(InsertFront(x, t, f, dir)) == multiset([x] + t)
    decreases |t|
  {
    if t != [] && Before(t[0], x, f, dir) {
      InsertFrontPermutes(x, t[1..], f, dir);
      assert t == [t[0]] + t[1..];
    }
  }

  /** The sort returns a permutation of its input, whatever the values. */
  lemma {:induction false} SortPermutes(s: seq<Row>, f: string, dir: Direction)
    ensures multiset(SortRows(s, f, dir)) == multiset(s)
    decreases |s|
  {
    if s != [] {
      SortPermutes(s[1..], f, dir);
      InsertFrontPermutes(s[0], SortRows(s[1..], f, dir), f, dir);
      assert s == [s[0]] + s[1..];
    }
  }

  lemma SameElements(a: seq<Row>, b: seq<Row>)
    requires multiset(a) == multiset(b)
    ensures forall x :: x in a <==> x in b
  {
    forall x ensures x in a <==> x in b {
      assert x in a <==> x in multiset(a);
      assert x in b <==> x in multiset(b);
    }
  }

  lemma BeforeAsymmetric(a: Row, b: Row, f: string, dir: Direction)
    ensures !(Before(a, b, f, dir) && Before(b, a, f, dir))
  {
    LessAsymmetric(Get(a, f), Get(b, f));
  }

  lemma BeforeNegativelyTransitive(a: Row, b: Row, c: Row, f: string, dir: Direction)
    requires SameKind(Get(a, f), Get(b, f)) && SameKind(Get(b, f), Get(c, f))
    requires !Before(a, b, f, dir) && !Before(b, c, f, dir)
    ensures !Before(a, c, f, dir)
  {
    if dir == Asc {
      LessNegativelyTransitive(Get(a, f), Get(b, f), Get(c, f));
    } else {
      LessNegativelyTransitive(Get(c, f), Get(b, f), Get(a, f));
    }
  }

  /** Putting in front of a sorted sequence a row that none of its elements must precede keeps it sorted. */
  lemma PrependSorted(y: Row, r: seq<Row>, f: string, dir: Direction)
    requires SortedOn(r, f, dir)
    requires forall z :: z in r ==> !Before(z, y, f, dir)
    ensures SortedOn([y] + r, f, dir)
  {
    var out := [y] + r;
    forall i, j | 0 <= i < j < |out| ensures !Before(out[j], out[i], f, dir) {
      if i == 0 {
        assert out[j] == r[j - 1] && out[j] in r;
      } else {
        assert out[i] == r[i - 1] && out[j] == r[j - 1];
      }
    }
  }

  lemma {:induction false} InsertFrontSorted(x: Row, t: seq<Row>, f: string, dir: Direction)
    requires SortedOn(t, f, dir)
    requires Comparable([x] + t, f)
    ensures SortedOn(InsertFront(x, t, f, dir), f, dir)
    decreases |t|
  {
    if t != [] {
      assert t[0] in [x] + t && x in [x] + t;
      if Before(t[0], x, f, dir) {
        var rest := t[1..];
        assert Comparable([x] + rest, f) by {
          forall y | y in [x] + rest ensures y in [x] + t { }
        }
        assert SortedOn(rest, f, dir);
        InsertFrontSorted(x, rest, f, dir);
        var r := InsertFront(x, rest, f, dir);
        InsertFrontPermutes(x, rest, f, dir);
        SameElements(r, [x] + rest);
        forall y | y in r ensures !Before(y, t[0], f, dir) {
          if y == x {
            BeforeAsymmetric(t[0], x, f, dir);
          } else {
            assert y in rest;
            var j :| 0 <= j < |rest| && rest[j] == y;
            assert t[j + 1] == y;
          }
        }
        PrependSorted(t[0], r, f, dir);
      } else {
        forall z | z in t ensures !Before(z, x, f, dir) {
          var j :| 0 <= j < |t| && t[j] == z;
          if j > 0 {
            assert z in [x] + t;
            BeforeNegativelyTransitive(z, t[0], x, f, dir);
          }
        }
        PrependSorted(x, t, f, dir);
      }
    }
  }

  /** With values of one kind, the result is ordered on `f` in the requested direction. */
  lemma {:induction false} SortSorted(s: seq<Row>, f: string, dir: Direction)
    requires Comparable(s, f)
    ensures SortedOn(SortRows(s, f, dir), f, dir)
    decreases |s|
  {
    if s != [] {
      var t := SortRows(s[1..], f, dir);
      assert Comparable(s[1..], f) by {
        forall y | y in s[1..] ensures y in s { }
      }
      SortSorted(s[1..], f, dir);
      SortPermutes(s[1..], f, dir);
      SameElements(t, s[1..]);
      assert Comparable([s[0]] + t, f) by {
        forall y | y in [s[0]] + t ensures y in s {
          if y != s[0] { assert y in s[1..]; }
        }
      }
      InsertFrontSorted(s[0], t, f, dir);
    }
  }

  lemma TiesOfAppend(a: seq<Row>, b: seq<Row>, f: string, v: Value)
    ensures TiesOf(a + b, f, v) == TiesOf(a, f, v) + TiesOf(b, f, v)
  {
    Seqs.FilterAppend(a, b, (r: Row) => Tied(Get(r, f), v));
  }

  /** All values of property `f` in `s` are of the same kind as `v`. */
  predicate OfKind(s: seq<Row>, f: string, v: Value)
  {
    forall y :: y in s ==> SameKind(Get(y, f), v)
  }

  /** A row strictly before another is never tied with the same value as it. */
  lemma BeforeNotBothTied(a: Row, b: Row, f: string, dir: Direction, v: Value)
    requires SameKind(Get(a, f), v) && SameKind(Get(b, f), v)
    requires Before(a, b, f, dir)
    ensures !(Tied(Get(a, f), v) && Tied(Get(b, f), v))
  {
    if Tied(Get(a, f), v) && Tied(Get(b, f), v) {
      TiedIsEquivalence(Get(a, f), v, Get(b, f));
      assert false;
    }
  }

  /** Two rows not both tied with `v` can trade places without changing the ties of `v`. */
  lemma TiesOfSwap(x: Row, y: Row, rest: seq<Row>, f: string, v: Value)
    requires !(Tied(Get(x, f), v) && Tied(Get(y, f), v))
    ensures TiesOf([y], f, v) + TiesOf([x] + rest, f, v) == TiesOf([x] + ([y] + rest), f, v)
  {
    TiesOfAppend([x], rest, f, v);
    TiesOfAppend([y], rest, f, v);
    TiesOfAppend([x], [y] + rest, f, v);
    assert [x][1..] == [] && [y][1..] == [];
    assert TiesOf([x], f, v) == (if Tied(Get(x, f), v) then [x] else []);
    assert TiesOf([y], f, v) == (if Tied(Get(y, f), v) then [y] else []);
  }

  lemma {:induction false} InsertFrontKeepsTies(x: Row, t: seq<Row>, f: string, dir: Direction, v: Value)
    requires OfKind([x] + t, f, v)
    ensures TiesOf(InsertFront(x, t, f, dir), f, v) == TiesOf([x] + t, f, v)
    decreases |t|
  {
    if t != [] && Before(t[0], x, f, dir) {
      var rest := t[1..];
      assert OfKind([x] + rest, f, v) by {
        forall y | y in [x] + rest ensures y in [x] + t { }
      }
      InsertFrontKeepsTies(x, rest, f, dir, v);
      assert x in [x] + t && t[0] in [x] + t;
      BeforeNotBothTied(t[0], x, f, dir, v);
      TiesOfAppend([t[0]], InsertFront(x, rest, f, dir), f, v);
      TiesOfSwap(x, t[0], rest, f, v);
      assert [t[0]] + rest == t;
    }
  }

  /**
    The sort is stable: for every value `v` of the sort property, the rows tied with `v`
    appear in the result in the same relative order as in the input.
   */
  lemma {:induction false} SortStableFor(s: seq<Row>, f: string, dir: Direction, v: Value)
    requires OfKind(s, f, v)
    ensures TiesOf(SortRows(s, f, dir), f, v) == TiesOf(s, f, v)
    decreases |s|
  {
    if s != [] {
      var t := SortRows(s[1..], f, dir);
      OfKindSplit(s, f, dir, v);
      SortStableFor(s[1..], f, dir, v);
      InsertFrontKeepsTies(s[0], t, f, dir, v);
      TiesOfAppend([s[0]], t, f, v);
      TiesOfAppend([s[0]], s[1..], f, v);
      assert [s[0]] + s[1..] == s;
    }
  }

  /** The kind hypothesis carries over to the tail, and to the head in front of the sorted tail. */
  lemma OfKindSplit(s: seq<Row>, f: string, dir: Direction, v: Value)
    requires OfKind(s, f, v) && s != []
    ensures OfKind(s[1..], f, v) && OfKind([s[0]] + SortRows(s[1..], f, dir), f, v)
  {
    var t := SortRows(s[1..], f, dir);
    assert OfKind(s[1..], f, v) by {
      forall y | y in s[1..] ensures y in s { }
    }
    SortPermutes(s[1..], f, dir);
    SameElements(t, s[1..]);
    forall y | y in [s[0]] + t ensures y in s {
      if y != s[0] { assert y in s[1..]; }
    }
  }

  /** Stability stated over the input's own key values. */
  lemma SortStable(s: seq<Row>, f: string, dir: Direction, k: int)
    requires Comparable(s, f) && 0 <= k < |s|
    ensures TiesOf(SortRows(s, f, dir), f, Get(s[k], f)) == TiesOf(s, f, Get(s[k], f))
  {
    assert s[k] in s;
    SortStableFor(s, f, dir, Get(s[k], f));
  }

  /** In a sorted sequence no element is strictly before the first one. */
  lemma SortedHeadFirst(s: seq<Row>, x: Row, f: string, dir: Direction)
    requires SortedOn(s, f, dir) && x in s
    ensures !Before(x, s[0], f, dir)
  {
    var j :| 0 <= j < |s| && s[j] == x;
    if j > 0 {
      assert !Before(s[j], s[0], f, dir);
    } else {
      BeforeAsymmetric(x, x, f, dir);
    }
  }

  lemma HeadsAgree(a: seq<Row>, b: seq<Row>, f: string, dir: Direction)
    requires a != [] && multiset(a) == multiset(b)
    requires SortedOn(a, f, dir) && SortedOn(b, f, dir)
    requires DistinctKeys(a, f)
    ensures b != [] && a[0] == b[0]
  {
    SameElements(a, b);
    assert a[0] in b;
    assert b[0] in a;
    if a[0] != b[0] {
      SortedHeadFirst(b, a[0], f, dir);
      SortedHeadFirst(a, b[0], f, dir);
      assert false;
    }
  }

  /** Two sorted permutations of each other are equal when distinct rows are never tied. */
  lemma {:induction false} SortedPermutationUnique(a: seq<Row>, b: seq<Row>, f: string, dir: Direction)
    requires multiset(a) == multiset(b)
    requires SortedOn(a, f, dir) && SortedOn(b, f, dir)
    requires DistinctKeys(a, f)
    ensures a == b
    decreases |a|
  {
    if a != [] {
      HeadsAgree(a, b, f, dir);
      assert a == [a[0]] + a[1..] && b == [b[0]] + b[1..];
      assert multiset(a) == multiset([a[0]]) + multiset(a[1..]);
      assert multiset(b) == multiset([b[0]]) + multiset(b[1..]);
      forall x ensures multiset(a[1..])[x] == multiset(b[1..])[x] {
        assert multiset(a)[x] == multiset(b)[x];
      }
      assert multiset(a[1..]) == multiset(b[1..]);
      assert DistinctKeys(a[1..], f) by {
        forall x | x in a[1..] ensures x in a { }
      }
      assert SortedOn(a[1..], f, dir) && SortedOn(b[1..], f, dir);
      SortedPermutationUnique(a[1..], b[1..], f, dir);
    } else {
      assert |b| == |multiset(b)| == 0;
    }
  }

  lemma ReverseOfAscIsDesc(a: seq<Row>, f: string)
    requires SortedOn(a, f, Asc)
    ensures SortedOn(Seqs.Reverse(a), f, Desc)
  {
    var r := Seqs.Reverse(a);
    forall i, j | 0 <= i < j < |r| ensures !Before(r[j], r[i], f, Desc) {
      assert r[i] == a[|a| - 1 - i] && r[j] == a[|a| - 1 - j];
      assert !Before(a[|a| - 1 - i], a[|a| - 1 - j], f, Asc);
    }
  }

  /**
    Sorting ascending and then descending on a property whose values are of one kind and
    pairwise distinct gives exactly the reverse of the ascending order.
   */
  lemma AscThenDescReverses(s: seq<Row>, f: string)
    requires Comparable(s, f) && DistinctKeys(s, f)
    ensures SortRows(SortRows(s, f, Asc), f, Desc) == Seqs.Reverse(SortRows(s, f, Asc))
  {
    var a := SortRows(s, f, Asc);
    var b := SortRows(a, f, Desc);
    var r := Seqs.Reverse(a);
    SortPermutes(s, f, Asc);
    SameElements(a, s);
    SortSorted(s, f, Asc);
    assert Comparable(a, f);
    SortPermutes(a, f, Desc);
    SortSorted(a, f, Desc);
    Seqs.ReversePermutes(a);
    ReverseOfAscIsDesc(a, f);
    SameElements(b, a);
    assert DistinctKeys(b, f);
    SortedPermutationUnique(b, r, f, Desc);
  }
}
