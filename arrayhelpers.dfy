/**
  `AppUtils.array.unique` and `AppUtils.array.sortByProperty`, and
  `AppUtils.validate.isNonEmptyString`.
 */
module ArrayHelpers {
  import opened JsStrings
  import opened JsValues
  import opened ArraySort

  /**
    `[...new Set(array)]`: a `Set` keeps the first insertion of each element and iterates
    in insertion order.  Elements are compared by the element type's equality (for the
    primitive values of this model that is SameValueZero).
   */
  function Unique<T(==)>(s: seq<T>): (r: seq<T>)
    ensures |r| <= |s|
  {
    if s == [] then []
    else
      var u := Unique(s[..|s| - 1]);
      if s[|s| - 1] in u then u else u + [s[|s| - 1]]
  }

  /** The index of the first occurrence of `x` in `s`. */
  function FirstIndex<T(==)>(s: seq<T>, x: T): (i: nat)
    requires x in s
    ensures i < |s| && s[i] == x && x !in s[..i]
  {
    if s[0] == x then 0 else 1 + FirstIndex(s[1..], x)
  }

  lemma FirstIndexOfPrefix<T>(s: seq<T>, x: T)
    requires s != [] && x in s[..|s| - 1]
    ensures FirstIndex(s, x) == FirstIndex(s[..|s| - 1], x)
  {
    var p := s[..|s| - 1];
    var i := FirstIndex(p, x);
    var j := FirstIndex(s, x);
    assert forall k :: 0 <= k < i ==> s[k] != x by {
      forall k | 0 <= k < i ensures s[k] != x { assert s[k] == p[..i][k]; }
    }
    assert forall k :: 0 <= k < j ==> s[k] != x by {
      forall k | 0 <= k < j ensures s[k] != x { assert s[k] == s[..j][k]; }
    }
    assert s[i] == p[i];
  }

  /** The result holds each element of the input, and each only once. */
  lemma {:induction false} UniqueElements<T>(s: seq<T>)
    ensures forall x :: x in Unique(s) ==> x in s
    ensures forall x :: x in s ==> x in Unique(s)
    ensures forall i, j :: 0 <= i < j < |Unique(s)| ==> Unique(s)[i] != Unique(s)[j]
    decreases |s|
  {
    if s != [] {
      var p := s[..|s| - 1];
      UniqueElements(p);
      assert s == p + [s[|s| - 1]];
    }
  }

  /**
    The result holds each element of the input exactly once, and lists them in the order
    of their first occurrence.
   */
  lemma {:induction false} UniqueProperties<T>(s: seq<T>)
    ensures forall x :: x in Unique(s) ==> x in s
    ensures forall x :: x in s ==> x in Unique(s)
    ensures forall i, j :: 0 <= i < j < |Unique(s)| ==> Unique(s)[i] != Unique(s)[j]
    ensures forall i, j :: 0 <= i < j < |Unique(s)| ==>
              FirstIndex(s, Unique(s)[i]) < FirstIndex(s, Unique(s)[j])
    decreases |s|
  {
    UniqueElements(s);
    if s != [] {
      var p := s[..|s| - 1];
      var x := s[|s| - 1];
      UniqueProperties(p);
      var u := Unique(p);
      assert s == p + [x];
      forall y | y in u ensures FirstIndex(s, y) == FirstIndex(p, y) {
        FirstIndexOfPrefix(s, y);
      }
      if x !in u {
        var r := u + [x];
        assert FirstIndex(s, x) == |s| - 1;
        forall i, j | 0 <= i < j < |r| ensures FirstIndex(s, r[i]) < FirstIndex(s, r[j]) {
          if j == |r| - 1 {
            assert r[i] in u;
          } else {
            assert r[i] == u[i] && r[j] == u[j];
          }
        }
      }
    }
  }

  /**
    `array.sortByProperty(array, property, order)`: a copy sorted with the comparator
    `a[p] > b[p] ? 1 : -1` (`'asc'`) or `a[p] < b[p] ? 1 : -1` (any other order); `order`
    defaults to `'asc'` at the call site.  On pairwise distinct keys of one kind this
    comparator agrees with the one `SortRows` applies.  It never answers 0, so on equal
    keys it is inconsistent and the engine's order of those rows is implementation-defined;
    the model keeps them in input order, as `SortRows` does.
   */
  function SortByProperty(items: seq<Row>, property: string, order: string): seq<Row>
  {
    SortRows(items, property, if order == "asc" then Asc else Desc)
  }

  /**
    The result is a permutation of the input, and when the property values are mutually
    comparable it is ordered by them: ascending for `'asc'`, descending otherwise.
   */
  lemma SortByPropertyOrders(items: seq<Row>, property: string, order: string)
    ensures multiset(SortByProperty(items, property, order)) == multiset(items)
    ensures Comparable(items, property) ==>
              var r := SortByProperty(items, property, order);
              forall i, j :: 0 <= i < j < |r| ==>
                if order == "asc" then !Less(Get(r[j], property), Get(r[i], property))
                else !Less(Get(r[i], property), Get(r[j], property))
  {
    var dir := if order == "asc" then Asc else Desc;
    SortPermutes(items, property, dir);
    if Comparable(items, property) {
      SortSorted(items, property, dir);
    }
  }

  /** `validate.isNonEmptyString(value)`: a string that is not all whitespace. */
  predicate IsNonEmptyString(v: Value)
  {
    v.Str? && |Trim(v.s)| > 0
  }

  /** A value passes exactly when it is a string with at least one non-whitespace character. */
  lemma IsNonEmptyStringIff(v: Value)
    ensures IsNonEmptyString(v) <==>
              v.Str? && exists i :: 0 <= i < |v.s| && !IsJsWhitespace(v.s[i])
  {
    if v.Str? { TrimEmptyIff(v.s); }
  }
}
