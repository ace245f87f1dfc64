/** What the arrays hold at each address of a measure, in the numbers of `MeasRef::ArrayComponent`. */
module MeasureContents {
  import opened Wrappers
  import opened Enumeration
  import opened RankExtension
  import opened Measures
  import opened MeasureEncoding
  import opened MeasureAddresses

  /** The measure that is found from m by way of these components. */
  ghost function At(m: Measure, path: Point): Option<Measure>
    decreases |path|
  {
    if path == [] then Some(m)
    else if Below(m.ref, path[0]).None? then None
    else At(Below(m.ref, path[0]).value, path[1..])
  }

  /** p is the address a, followed by zeros. */
  ghost predicate Padded(p: Point, a: Point) {
    |a| <= |p| && p[..|a|] == a && OnlyZeros(p[|a|..])
  }

  lemma PaddedIs(p: Point, a: Point)
    requires Padded(p, a)
    ensures p == Pad(a, |p|)
  {
    var zeros := p[|a|..];
    assert p == a + zeros;
    OnlyZerosIs(zeros);
  }

  lemma {:induction false} OnlyZerosIs(p: Point)
    requires OnlyZeros(p)
    ensures p == Zeros(|p|)
  {
    if p != [] {
      assert p[0] == 0;
      forall i | 0 <= i < |p| - 1 ensures p[1..][i] == 0 { assert p[i + 1] == 0; }
      OnlyZerosIs(p[1..]);
    }
  }

  lemma {:induction false} ComponentEncoded(d: Data, r: Ref, c: int, at: Point, dim: nat, b: int)
    requires |at| + Levels(r) <= dim && ComponentsEncoded(d, r, c, at, dim)
    requires c <= b && Component(r, b).Some?
    ensures |at| + 1 + Levels(Component(r, b).value.ref) <= dim
    ensures Encoded(d, Component(r, b).value, at + [b], dim)
    decreases NUM_COMPONENTS - c
  {
    hide Levels, Encoded;
    ComponentLevels(r, b);
    if c < b { ComponentEncoded(d, r, c + 1, at, dim, b); }
  }

  lemma {:induction false} EncodedBelow(d: Data, m: Measure, at: Point, dim: nat, path: Point)
    requires |at| + Levels(m.ref) <= dim && Encoded(d, m, at, dim) && At(m, path).Some?
    ensures var found := At(m, path).value;
            |at + path| + Levels(found.ref) <= dim && Encoded(d, found, at + path, dim)
    decreases |path|
  {
    hide Levels, ComponentsEncoded, OneEncoded;
    if path == [] {
      assert at + path == at;
    } else {
      var b := path[0];
      BelowIs(m.ref, b);
      FirstComponent(d, m, at, dim, b);
      assert at + path == at + [b] + path[1..];
      EncodedBelow(d, Below(m.ref, b).value, at + [b], dim, path[1..]);
    }
  }

  lemma FirstComponent(d: Data, m: Measure, at: Point, dim: nat, b: int)
    requires |at| + Levels(m.ref) <= dim && Encoded(d, m, at, dim) && Component(m.ref, b).Some?
    ensures |at| + 1 + Levels(Component(m.ref, b).value.ref) <= dim
    ensures Encoded(d, Component(m.ref, b).value, at + [b], dim)
  {
    hide Levels;
    ComponentEncoded(d, m.ref, OFFSET, at, dim, b);
  }

  /**
   At the address of every measure below m, padded with zeros: its class, its reference type and the number of
   its values; behind it, at 0 and n, padded with zeros to one more dimension: value n.
   */
  lemma EncodedContents(d: Data, m: Measure, at: Point, dim: nat, path: Point, p: Point, v: Point, n: nat)
    requires |at| + Levels(m.ref) <= dim && Encoded(d, m, at, dim) && At(m, path).Some?
    ensures var found := At(m, path).value;
            && (|p| == dim && Padded(p, at + path) ==>
                  && p in d.mclasses && d.mclasses[p] == found.klass
                  && p in d.rtypes && d.rtypes[p] == found.ref.rtype
                  && p in d.numvals && d.numvals[p] == |found.values|)
            && (|v| == dim + 1 && n < |found.values| && Padded(v, at + path + [0, n]) ==>
                  v in d.vals && d.vals[v] == found.values[n])
  {
    hide Levels, Padded, ComponentsEncoded;
    EncodedBelow(d, m, at, dim, path);
    var found := At(m, path).value;
    if |p| == dim && Padded(p, at + path) { PaddedIs(p, at + path); }
    LevelsAre(found.ref);
    assert OneEncoded(d, found, at + path, dim);
    if |v| == dim + 1 && n < |found.values| && Padded(v, at + path + [0, n]) {
      PaddedIs(v, at + path + [0, n]);
      assert ValueEncoded(d, found.values[n], n, at + path, dim);
    }
  }
}
