/** `MeasRef::create` followed by `MeasRef::make`: measure references survive their encoding. */
module MeasRefs {
  import opened Wrappers
  import opened IndexTrees
  import opened Enumeration
  import opened RankExtension
  import opened Measures
  import opened CreateTrees
  import opened MeasureEncoding
  import opened MeasureWriter
  import opened MeasureReader

  ghost predicate NoneEmpty(domain: seq<Point>) {
    forall k | 0 <= k < |domain| :: domain[k] != []
  }

  /** The first upper bound of the bounding box of a domain. */
  function HiFirst(domain: seq<Point>): int
    requires domain != [] && NoneEmpty(domain)
  {
    assert NoneEmpty(domain[1..]);
    if |domain| == 1 || domain[0][0] > HiFirst(domain[1..]) then domain[0][0] else HiFirst(domain[1..])
  }

  lemma {:induction false} HiFirstIs(domain: seq<Point>, n: int)
    requires domain != [] && NoneEmpty(domain) && forall k | 0 <= k < |domain| :: domain[k][0] <= n
    ensures HiFirst(domain) <= n
    ensures (exists k | 0 <= k < |domain| :: domain[k][0] == n) ==> HiFirst(domain) == n
  {
    if |domain| > 1 {
      HiFirstIs(domain[1..], n);
      if k :| 0 <= k < |domain| && domain[k][0] == n && k > 0 {
        assert domain[1..][k - 1][0] == n;
      }
    }
  }

  /** The domains are those that BuildDomains promises. */
  ghost predicate DomainsFor(md: seq<Point>, vd: seq<Point>, mrbs: seq<Ref>) {
    && (forall p :: p in md <==> MetadataPoint(mrbs, p))
    && (forall p :: p in vd <==> ValuePoint(mrbs, p))
  }

  lemma HiIsLast(md: seq<Point>, vd: seq<Point>, mrbs: seq<Ref>)
    requires DomainsFor(md, vd, mrbs) && mrbs != []
    ensures md != [] && NoneEmpty(md) && HiFirst(md) == |mrbs| - 1
  {
    var last := |mrbs| - 1;
    var p := [last] + Zeros(Levels(mrbs[last]));
    ZerosAllZero(Zeros(Levels(mrbs[last])));
    assert p[1..] == Zeros(Levels(mrbs[last]));
    assert MetadataPoint(mrbs, p);
    forall k | 0 <= k < |md| ensures md[k] != [] && md[k][0] <= last {
      assert md[k] in md;
    }
    var k :| 0 <= k < |md| && md[k] == p;
    assert md[k][0] == last;
    HiFirstIs(md, last);
  }

  lemma DomainRoom(md: seq<Point>, vd: seq<Point>, mrbs: seq<Ref>, klass: MClass, i: nat)
    requires DomainsFor(md, vd, mrbs) && i < |mrbs|
    ensures Room(md, vd, Measure(klass, [], mrbs[i]), [i], Levels(mrbs[i]) + 1)
    ensures forall q: Point | 1 + |q| == Levels(mrbs[i]) + 1 && [i] + q in md :: Address(mrbs[i], q)
  {
    var r := mrbs[i];
    forall q: Point | |q| == Levels(r) ensures [i] + q in md <==> Address(r, q) {
      assert ([i] + q)[1..] == q;
      assert [i] + q in md <==> MetadataPoint(mrbs, [i] + q);
    }
    forall q: Point | 1 + |q| == Levels(r) + 2 && ValueAddress(r, [], q) ensures [i] + q in vd {
      assert ([i] + q)[1..] == q && Component(r, q[0]).Some?;
      assert ValuePoint(mrbs, [i] + q);
    }
  }

  method Instantiate(prs: DataRegions, dim: nat, klass: MClass, ghost mrbs: seq<Ref>) returns (result: seq<Ref>)
    requires mrbs != [] && DomainsFor(prs.metadataDomain, prs.valueDomain, mrbs)
    requires forall i | 0 <= i < |mrbs| ::
               Shows(prs.Contents(), prs.metadataDomain, prs.valueDomain, Measure(klass, [], mrbs[i]), [i], dim)
    ensures result == mrbs
  {
    hide Shows, DomainsFor;
    HiIsLast(prs.metadataDomain, prs.valueDomain, mrbs);
    var n := HiFirst(prs.metadataDomain) + 1;
    result := [];
    var i := 0;
    while i < n
      invariant i <= n && result == mrbs[..i]
    {
      var r := InstantiateRef(prs, i, dim, Measure(klass, [], mrbs[i]));
      result := result + [r];
      i := i + 1;
    }
  }

  /**
   Encoding succeeds exactly when the references need equally many dimensions, and decoding then
   returns the same recursive references.
   */
  method CreateAndMake(mrbs: seq<Ref>, klass: MClass) returns (result: Result<seq<Ref>, CreateError>)
    requires mrbs != [] && AllWellFormed(mrbs, klass)
    ensures result == if SameLevels(mrbs) then Success(mrbs) else Failure(NoCommonRank)
  {
    hide Shows, Room, Encoded, Levels, WellFormed, MetadataPoint, ValuePoint, DomainsFor, Points, Has, Canonical, Rank;
    var domains := BuildDomains(mrbs, klass);
    if domains.Failure? { return Failure(NoCommonRank); }
    var md, vd := Points(domains.value.metadata), Points(domains.value.values);
    DomainPoints(domains.value, mrbs);
    var dim := Rank(domains.value.metadata).value;
    var prs := new DataRegions(md, vd);
    forall i: nat | i < |mrbs| ensures 1 + Levels(mrbs[i]) <= dim && WellFormed(mrbs[i], klass)
                                       && Room(md, vd, Measure(klass, [], mrbs[i]), [i], dim) {
      DomainRoom(md, vd, mrbs, klass, i);
      assert mrbs[i] in mrbs;
    }
    Initialize(prs, mrbs, klass, dim);
    forall i: nat | i < |mrbs| ensures Shows(prs.Contents(), md, vd, Measure(klass, [], mrbs[i]), [i], dim) {
      DomainRoom(md, vd, mrbs, klass, i);
      assert mrbs[i] in mrbs;
      ShowsFrom(prs.Contents(), md, vd, Measure(klass, [], mrbs[i]), i, dim);
    }
    var refs := Instantiate(prs, dim, klass, mrbs);
    result := Success(refs);
  }

  lemma DomainPoints(domains: Domains, mrbs: seq<Ref>)
    requires Canonical(domains.metadata) && Canonical(domains.values)
    requires forall p :: Has(domains.metadata, p) <==> MetadataPoint(mrbs, p)
    requires forall p :: Has(domains.values, p) <==> ValuePoint(mrbs, p)
    ensures DomainsFor(Points(domains.metadata), Points(domains.values), mrbs)
  {
    PointsEnumerate(domains.metadata);
    PointsEnumerate(domains.values);
  }

  lemma ShowsFrom(d: Data, md: seq<Point>, vd: seq<Point>, m: Measure, i: nat, dim: nat)
    requires 1 + Levels(m.ref) <= dim && Encoded(d, m, [i], dim) && WellFormed(m.ref, m.klass)
    requires Room(md, vd, m, [i], dim)
    requires forall q: Point | 1 + |q| == dim && [i] + q in md :: Address(m.ref, q)
    ensures Shows(d, md, vd, m, [i], dim)
  {
  }
}
