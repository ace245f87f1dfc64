/** Column indexes: the grouping of rows by value in hyperion/Column.cc, and row lists per index position. */
module ColumnIndex {
  import opened Enumeration

  // ----- grouping one column -----

  /** The points of dom that have a value. */
  function Filter<T(==)>(dom: seq<Point>, vals: map<Point, T>, v: T): seq<Point> {
    if dom == [] then []
    else
      var n := |dom| - 1;
      Filter(dom[..n], vals, v) + if dom[n] in vals && vals[dom[n]] == v then [dom[n]] else []
  }

  ghost predicate Total<T(!new)>(dom: seq<Point>, vals: map<Point, T>) {
    forall k | 0 <= k < |dom| :: dom[k] in vals
  }

  lemma {:induction false} InFilter<T(!new)>(dom: seq<Point>, vals: map<Point, T>, v: T, p: Point)
    ensures p in Filter(dom, vals, v) <==> p in dom && p in vals && vals[p] == v
  {
    if dom != [] {
      var n := |dom| - 1;
      InFilter(dom[..n], vals, v, p);
      assert dom == dom[..n] + [dom[n]];
    }
  }

  lemma {:induction false} FilterIncreasing<T(!new)>(dom: seq<Point>, vals: map<Point, T>, v: T)
    requires Increasing(dom)
    ensures Increasing(Filter(dom, vals, v))
  {
    if dom != [] {
      var n := |dom| - 1;
      FilterIncreasing(dom[..n], vals, v);
      forall p, q | p in Filter(dom[..n], vals, v) && q in [dom[n]] ensures LexLess(p, q) {
        InFilter(dom[..n], vals, v, p);
        var k :| 0 <= k < n && dom[..n][k] == p;
        assert dom[k] == p;
      }
      AppendIncreasing(Filter(dom[..n], vals, v), [dom[n]]);
    }
  }

  /** `acc_d_pts`: each value of the column is mapped to the points that have it, in the order of the domain. */
  method AccDPts<T(!new, ==)>(dom: seq<Point>, vals: map<Point, T>) returns (result: map<T, seq<Point>>)
    requires Total(dom, vals)
    ensures forall v :: v in result <==> Filter(dom, vals, v) != []
    ensures forall v | v in result :: result[v] == Filter(dom, vals, v)
  {
    result := map[];
    var k := 0;
    while k < |dom|
      invariant k <= |dom|
      invariant forall v :: v in result <==> Filter(dom[..k], vals, v) != []
      invariant forall v | v in result :: result[v] == Filter(dom[..k], vals, v)
    {
      var v := vals[dom[k]];
      assert dom[..k + 1][..k] == dom[..k];
      if v !in result {
        result := result[v := []];
      }
      result := result[v := result[v] + [dom[k]]];
      k := k + 1;
    }
    assert dom[..|dom|] == dom;
  }

  // ----- the index of a column: one row list per position -----

  /** col[x] lists in increasing order the rows whose position in the index is x. */
  ghost predicate IndexedBy(col: seq<seq<Point>>, dom: seq<Point>, pos: map<Point, int>) {
    && (forall p | p in dom :: p in pos && 0 <= pos[p] < |col|)
    && forall x | 0 <= x < |col| :: Increasing(col[x]) && forall p :: p in col[x] <==> p in dom && pos[p] == x
  }

  function PositionOf<T(==)>(keys: seq<T>, v: T): nat {
    if keys == [] || keys[0] == v then 0 else 1 + PositionOf(keys[1..], v)
  }

  lemma {:induction false} PositionIs<T(!new)>(keys: seq<T>, k: nat)
    requires k < |keys| && forall i, j | 0 <= i < j < |keys| :: keys[i] != keys[j]
    ensures PositionOf(keys, keys[k]) == k
  {
    if k > 0 {
      assert keys[0] != keys[k];
      PositionIs(keys[1..], k - 1);
    }
  }

  function Positions<T(==)>(dom: seq<Point>, vals: map<Point, T>, keys: seq<T>): map<Point, int>
    requires forall p | p in dom :: p in vals
  {
    map p | p in dom :: PositionOf(keys, vals[p])
  }

  /**
   The transfer of the grouped values, in any order of the keys, to a region over 0, 1, 2, ...:
   the row lists of the resulting index split the rows by the position of their value.
   */
  method IndexColumn<T(!new, ==)>(dom: seq<Point>, vals: map<Point, T>, keys: seq<T>) returns (rns: seq<seq<Point>>)
    requires Total(dom, vals) && Increasing(dom)
    requires forall i, j | 0 <= i < j < |keys| :: keys[i] != keys[j]
    requires forall v :: v in keys <==> exists p :: p in dom && p in vals && vals[p] == v
    ensures |rns| == |keys|
    ensures forall p | p in dom :: p in vals && vals[p] in keys
    ensures IndexedBy(rns, dom, Positions(dom, vals, keys))
  {
    var acc := AccDPts(dom, vals);
    rns := [];
    var i := 0;
    while i < |keys|
      invariant i <= |keys| == |rns| + |keys| - i
      invariant forall x | 0 <= x < i :: rns[x] == Filter(dom, vals, keys[x])
    {
      assert keys[i] in keys;
      var p :| p in dom && p in vals && vals[p] == keys[i];
      InFilter(dom, vals, keys[i], p);
      rns := rns + [acc[keys[i]]];
      i := i + 1;
    }
    GroupsIndex(dom, vals, keys, rns);
  }

  lemma GroupsIndex<T(!new)>(dom: seq<Point>, vals: map<Point, T>, keys: seq<T>, rns: seq<seq<Point>>)
    requires Total(dom, vals) && Increasing(dom) && |rns| == |keys|
    requires forall i, j | 0 <= i < j < |keys| :: keys[i] != keys[j]
    requires forall v :: v in keys <==> exists p :: p in dom && p in vals && vals[p] == v
    requires forall x | 0 <= x < |keys| :: rns[x] == Filter(dom, vals, keys[x])
    ensures forall p | p in dom :: p in vals && vals[p] in keys
    ensures IndexedBy(rns, dom, Positions(dom, vals, keys))
  {
    forall p | p in dom ensures p in vals && vals[p] in keys {
      var k :| 0 <= k < |dom| && dom[k] == p;
    }
    var pos := Positions(dom, vals, keys);
    forall p | p in dom ensures p in pos && 0 <= pos[p] < |rns| && keys[pos[p]] == vals[p] {
      var k :| 0 <= k < |keys| && keys[k] == vals[p];
      PositionIs(keys, k);
    }
    forall x | 0 <= x < |rns|
      ensures Increasing(rns[x]) && forall p :: p in rns[x] <==> p in dom && pos[p] == x
    {
      FilterIncreasing(dom, vals, keys[x]);
      forall p ensures p in rns[x] <==> p in dom && pos[p] == x {
        InFilter(dom, vals, keys[x], p);
        PositionIs(keys, x);
      }
    }
  }

  // ----- intersecting row lists -----

  /** `std::set_intersection` on sorted lists. */
  function Intersection(first: seq<Point>, second: seq<Point>): seq<Point>
    decreases |first| + |second|
  {
    if first == [] || second == [] then []
    else if LexLess(first[0], second[0]) then Intersection(first[1..], second)
    else if LexLess(second[0], first[0]) then Intersection(first, second[1..])
    else [first[0]] + Intersection(first[1..], second[1..])
  }

  lemma {:induction false} LexTotal(p: Point, q: Point)
    ensures LexLess(p, q) || p == q || LexLess(q, p)
  {
    if p != [] && q != [] && p[0] == q[0] {
      LexTotal(p[1..], q[1..]);
      assert p == [p[0]] + p[1..] && q == [q[0]] + q[1..];
    }
  }

  lemma {:induction false} LexTransitive(p: Point, q: Point, r: Point)
    requires LexLess(p, q) && LexLess(q, r)
    ensures LexLess(p, r)
  {
    if p != [] && p[0] == q[0] == r[0] {
      LexTransitive(p[1..], q[1..], r[1..]);
    }
  }

  /** Nothing before the head of an increasing list occurs in it. */
  lemma NotBeforeHead(ps: seq<Point>, p: Point)
    requires Increasing(ps) && ps != [] && LexLess(p, ps[0])
    ensures p !in ps
  {
    if p in ps {
      var k :| 0 <= k < |ps| && ps[k] == p;
      LexAsymmetric(p, ps[0]);
    }
  }

  lemma {:induction false} IntersectionIs(first: seq<Point>, second: seq<Point>, p: Point)
    requires Increasing(first) && Increasing(second)
    ensures p in Intersection(first, second) <==> p in first && p in second
    decreases |first| + |second|
  {
    if first != [] && second != [] {
      assert Increasing(first[1..]) && Increasing(second[1..]);
      assert first == [first[0]] + first[1..] && second == [second[0]] + second[1..];
      LexTotal(first[0], second[0]);
      if LexLess(first[0], second[0]) {
        IntersectionIs(first[1..], second, p);
        NotBeforeHead(second, first[0]);
      } else if LexLess(second[0], first[0]) {
        IntersectionIs(first, second[1..], p);
        NotBeforeHead(first, second[0]);
      } else {
        IntersectionIs(first[1..], second[1..], p);
      }
    }
  }

  lemma {:induction false} IntersectionIncreasing(first: seq<Point>, second: seq<Point>)
    requires Increasing(first) && Increasing(second)
    ensures Increasing(Intersection(first, second))
    decreases |first| + |second|
  {
    if first != [] && second != [] {
      assert Increasing(first[1..]) && Increasing(second[1..]);
      if LexLess(first[0], second[0]) {
        IntersectionIncreasing(first[1..], second);
      } else if LexLess(second[0], first[0]) {
        IntersectionIncreasing(first, second[1..]);
      } else {
        IntersectionIncreasing(first[1..], second[1..]);
        forall p, q | p in [first[0]] && q in Intersection(first[1..], second[1..]) ensures LexLess(p, q) {
          IntersectionIs(first[1..], second[1..], q);
          var k :| 0 <= k < |first[1..]| && first[1..][k] == q;
          assert first[k + 1] == q;
        }
        AppendIncreasing([first[0]], Intersection(first[1..], second[1..]));
      }
    }
  }
}
