/** `create_cross_matrix` and the `sorted` it relies on. Python orders
    strings lexicographically by code point (Dafny's `<` on sequences is the
    proper-prefix order instead, so the order is defined here). SHA-256
    (`hash_value`) is the uninterpreted `Hasher`. */
module Report {

  /** Python's `a < b` on `str`. */
  predicate LexLess(a: string, b: string)
    decreases |a|
  {
    |b| > 0 && (|a| == 0 || a[0] < b[0] || (a[0] == b[0] && LexLess(a[1..], b[1..])))
  }

  lemma {:induction false} LexIrreflexive(a: string)
    ensures !LexLess(a, a)
    decreases |a|
  {
    if |a| > 0 {
      LexIrreflexive(a[1..]);
    }
  }

  lemma {:induction false} LexTransitive(a: string, b: string, c: string)
    requires LexLess(a, b) && LexLess(b, c)
    ensures LexLess(a, c)
    decreases |a|
  {
    if |a| > 0 && a[0] == b[0] && b[0] == c[0] {
      LexTransitive(a[1..], b[1..], c[1..]);
    }
  }

  /** Distinct strings are always comparable: the order is total. */
  lemma {:induction false} LexTotal(a: string, b: string)
    requires a != b
    ensures LexLess(a, b) || LexLess(b, a)
    decreases |a|
  {
    if |a| > 0 && |b| > 0 && a[0] == b[0] {
      assert a == [a[0]] + a[1..] && b == [b[0]] + b[1..];
      LexTotal(a[1..], b[1..]);
    }
  }

  lemma {:induction false} LexAsymmetric(a: string, b: string)
    requires LexLess(a, b)
    ensures !LexLess(b, a)
  {
    if LexLess(b, a) {
      LexTransitive(a, b, a);
      LexIrreflexive(a);
    }
  }

  /** `m` is the least element of `s`. */
  predicate IsLeast(m: string, s: set<string>)
  {
    m in s && forall x :: x in s && x != m ==> LexLess(m, x)
  }

  lemma {:induction false} LeastExists(s: set<string>)
    requires s != {}
    ensures exists m :: IsLeast(m, s)
    decreases |s|
  {
    var y :| y in s;
    if s != {y} {
      var rest := s - {y};
      LeastExists(rest);
      var m :| IsLeast(m, rest);
      LexTotal(m, y);
      if LexLess(m, y) {
        assert IsLeast(m, s);
      } else {
        forall x | x in s && x != y
          ensures LexLess(y, x)
        {
          if x != m {
            LexTransitive(y, m, x);
          }
        }
        assert IsLeast(y, s);
      }
    } else {
      assert IsLeast(y, s);
    }
  }

  lemma LeastUnique(m: string, n: string, s: set<string>)
    requires IsLeast(m, s) && IsLeast(n, s)
    ensures m == n
  {
    if m != n {
      LexAsymmetric(m, n);
    }
  }

  function Least(s: set<string>): (m: string)
    requires s != {}
    ensures IsLeast(m, s)
  {
    LeastExists(s);
    var m :| IsLeast(m, s);
    assert forall n :: IsLeast(n, s) ==> n == m by {
      forall n | IsLeast(n, s) ensures n == m { LeastUnique(m, n, s); }
    }
    m
  }

  /** Strictly increasing in Python's string order (so without repetitions). */
  predicate StrictlyIncreasing(items: seq<string>)
  {
    forall i, j :: 0 <= i < j < |items| ==> LexLess(items[i], items[j])
  }

  /** `sorted(s)` for a set of strings: its elements once each, in
      increasing order. */
  function Sorted(s: set<string>): (items: seq<string>)
    ensures |items| == |s|
    ensures forall x :: x in items <==> x in s
    ensures StrictlyIncreasing(items)
    decreases |s|
  {
    if s == {} then []
    else
      var m := Least(s);
      var rest := Sorted(s - {m});
      assert forall j :: 0 <= j < |rest| ==> LexLess(m, rest[j]) by {
        forall j | 0 <= j < |rest| ensures LexLess(m, rest[j]) {
          assert rest[j] in s - {m};
        }
      }
      [m] + rest
  }

  /** The position of every element in the sorted sequence is unique. */
  lemma SortedPositionUnique(s: set<string>, i: nat, j: nat)
    requires i < |Sorted(s)| && j < |Sorted(s)| && Sorted(s)[i] == Sorted(s)[j]
    ensures i == j
  {
    var items := Sorted(s);
    if i < j {
      LexIrreflexive(items[i]);
    } else if j < i {
      LexIrreflexive(items[j]);
    }
  }

  /** `hash_value`: the SHA-256 hex digest of the item. */
  type Hasher = string -> string

  /** One matrix row: `[hash_value(item), item in A, item in B]`. */
  datatype Row = Row(hashed: string, inFirst: bool, inSecond: bool)

  function RowOf(item: string, a: set<string>, b: set<string>, hash: Hasher): Row
  {
    Row(hash(item), item in a, item in b)
  }

  /** `create_cross_matrix` of web_spidering.py (a list comprehension): one
      row per element of the union, in sorted order of the items. */
  function CrossMatrix(a: set<string>, b: set<string>, hash: Hasher): (rows: seq<Row>)
    ensures |rows| == |a + b|
    ensures forall i :: 0 <= i < |rows| ==> rows[i] == RowOf(Sorted(a + b)[i], a, b, hash)
  {
    var items := Sorted(a + b);
    seq(|items|, i requires 0 <= i < |items| => RowOf(items[i], a, b, hash))
  }

  /** Every item of either set has exactly one row, and its flags say in
      which sets it lies; every row belongs to an item of the union. */
  lemma CrossMatrixRows(a: set<string>, b: set<string>, hash: Hasher, x: string)
    requires x in a + b
    ensures exists i :: (0 <= i < |CrossMatrix(a, b, hash)| && Sorted(a + b)[i] == x &&
      CrossMatrix(a, b, hash)[i] == Row(hash(x), x in a, x in b))
    ensures forall i, j :: 0 <= i < j < |CrossMatrix(a, b, hash)| ==> Sorted(a + b)[i] != Sorted(a + b)[j]
  {
    var items := Sorted(a + b);
    var i :| 0 <= i < |items| && items[i] == x;
    forall i, j | 0 <= i < j < |items| ensures items[i] != items[j] {
      if items[i] == items[j] {
        SortedPositionUnique(a + b, i, j);
      }
    }
  }

  /** Every row has at least one true flag; when the sets are disjoint, as
      the two URL sets of a comparison are, exactly one. */
  lemma CrossMatrixFlags(a: set<string>, b: set<string>, hash: Hasher)
    ensures forall i :: 0 <= i < |CrossMatrix(a, b, hash)| ==>
      CrossMatrix(a, b, hash)[i].inFirst || CrossMatrix(a, b, hash)[i].inSecond
    ensures a * b == {} ==> forall i :: 0 <= i < |CrossMatrix(a, b, hash)| ==>
      CrossMatrix(a, b, hash)[i].inFirst != CrossMatrix(a, b, hash)[i].inSecond
  {
    var items := Sorted(a + b);
    assert forall i :: 0 <= i < |items| ==> items[i] in a + b;
  }

  /** An item in both sets, as a directory shared by the two directory sets
      of a comparison can be, has a row with both flags true. */
  lemma CrossMatrixSharedItem(a: set<string>, b: set<string>, hash: Hasher, x: string)
    requires x in a && x in b
    ensures exists i :: (0 <= i < |CrossMatrix(a, b, hash)| &&
      CrossMatrix(a, b, hash)[i] == Row(hash(x), true, true))
  {
    CrossMatrixRows(a, b, hash, x);
  }
}
