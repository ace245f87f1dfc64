/** `do_domains_conform` of hyperion/Table.cc: do the leading axes of a column space go through the index space? */
module Conformance {
  import opened Enumeration
  import opened Truncation

  ghost predicate Ranks(object_: seq<Point>, subject: seq<Point>, rank: nat) {
    (forall p | p in object_ :: |p| == rank) && forall p | p in subject :: rank <= |p|
  }

  /** The last leading tuple belongs to one point of the subject only. */
  predicate SingleLast(subject: seq<Point>, rank: nat)
    requires forall p | p in subject :: rank <= |p|
  {
    |subject| == 1 || (|subject| > 1 && subject[|subject| - 2][..rank] != subject[|subject| - 1][..rank])
  }

  /** What the two iterators accept; the subject conforms when its leading tuples are the object's points. */
  predicate Accepted(object_: seq<Point>, subject: seq<Point>, rank: nat)
    requires forall p | p in subject :: rank <= |p|
  {
    if subject == [] || object_ == [] then true
    else if subject[0][..rank] == object_[0] then AcceptedFrom(object_, subject, rank, 2)
    else AcceptedFrom(object_[1..], subject, rank, 1)
  }

  /** All of the object, or a beginning of at least n points, the last of which the subject has once. */
  predicate AcceptedFrom(object_: seq<Point>, subject: seq<Point>, rank: nat, n: nat)
    requires forall p | p in subject :: rank <= |p|
  {
    var g := Leading(subject, rank);
    g <= object_ && (|g| == |object_| || (|g| >= n && SingleLast(subject, rank)))
  }

  // ----- the loops -----

  /** The first s points of the subject have led to object point o; skip tells whether the first one was left out. */
  ghost predicate Reached(object_: seq<Point>, subject: seq<Point>, rank: nat, o: nat, s: nat, skip: nat)
    requires forall p | p in subject :: rank <= |p|
  {
    && 0 < s <= |subject| && skip <= o < |object_| && skip <= 1
    && (skip == 1 <==> subject[0][..rank] != object_[0])
    && Leading(subject[..s], rank) == object_[skip..o + 1]
  }

  lemma {:induction false} LeadingGrows(points: seq<Point>, to: nat, s: nat)
    requires s <= |points| && forall p | p in points :: to <= |p|
    ensures Leading(points[..s], to) <= Leading(points, to)
    ensures s > 0 ==> Leading(points[..s], to) != []
    ensures s > 0 ==> Leading(points[..s], to)[|Leading(points[..s], to)| - 1] == points[s - 1][..to]
    decreases |points| - s, 0
  {
    hide Leading;
    if s > 0 { LeadingStep(points, to, s - 1); }
    if s < |points| {
      LeadingStep(points, to, s);
      LeadingGrows(points, to, s + 1);
    } else {
      assert points[..s] == points;
    }
  }

  lemma FirstLeading(points: seq<Point>, to: nat)
    requires points != [] && forall p | p in points :: to <= |p|
    ensures Leading(points[..1], to) == [points[0][..to]]
    ensures Leading(points, to) != [] && Leading(points, to)[0] == points[0][..to]
  {
    LeadingStep(points, to, 0);
    LeadingGrows(points, to, 1);
  }

  /** Another point with the tuple of the object point that has been reached. */
  lemma SameTuple(object_: seq<Point>, subject: seq<Point>, rank: nat, o: nat, s: nat, skip: nat)
    requires (forall p | p in subject :: rank <= |p|) && s < |subject|
    requires Reached(object_, subject, rank, o, s, skip) && subject[s][..rank] == object_[o]
    ensures Reached(object_, subject, rank, o, s + 1, skip) && subject[s - 1][..rank] == object_[o]
  {
    hide Leading;
    LeadingStep(subject, rank, s);
    LeadingGrows(subject, rank, s);
  }

  /** A point with another tuple: the next object point, or the subject does not conform. */
  lemma NextTuple(object_: seq<Point>, subject: seq<Point>, rank: nat, o: nat, s: nat, skip: nat)
    requires (forall p | p in subject :: rank <= |p|) && s < |subject|
    requires Reached(object_, subject, rank, o, s, skip) && subject[s][..rank] != object_[o]
    ensures if o + 1 < |object_| && subject[s][..rank] == object_[o + 1]
            then Reached(object_, subject, rank, o + 1, s + 1, skip) && subject[s - 1][..rank] != subject[s][..rank]
            else !Accepted(object_, subject, rank)
  {
    hide Leading, SingleLast, Accepted;
    LeadingStep(subject, rank, s);
    LeadingGrows(subject, rank, s);
    if o + 1 < |object_| && subject[s][..rank] == object_[o + 1] {
      assert object_[skip..o + 2] == object_[skip..o + 1] + [subject[s][..rank]];
    } else {
      OffTrack(object_, subject, rank, o, s, skip);
    }
  }

  lemma OffTrack(object_: seq<Point>, subject: seq<Point>, rank: nat, o: nat, s: nat, skip: nat)
    requires (forall p | p in subject :: rank <= |p|) && s < |subject|
    requires Reached(object_, subject, rank, o, s, skip) && subject[s][..rank] != object_[o]
    requires !(o + 1 < |object_| && subject[s][..rank] == object_[o + 1])
    ensures !Accepted(object_, subject, rank)
  {
    hide Leading, SingleLast;
    var n, g, l := o + 1 - skip, Leading(subject, rank), object_[skip..];
    LeadingStep(subject, rank, s);
    LeadingGrows(subject, rank, s);
    LeadingGrows(subject, rank, s + 1);
    var grown := object_[skip..o + 1] + [subject[s][..rank]];
    assert Leading(subject[..s + 1], rank) == grown && grown[n] == subject[s][..rank];
    assert o + 1 < |object_| ==> l[n] == object_[o + 1];
    NoPrefix(g, l, n);
    if skip == 0 { assert l == object_; }
  }

  lemma NoPrefix(g: seq<Point>, l: seq<Point>, n: nat)
    requires n < |g| && (n < |l| ==> l[n] != g[n])
    ensures !(g <= l)
  {
    var x := g[n];
  }

  /** The first point of the subject leads to the first or to the second point of the object, or nowhere. */
  lemma FirstTuple(object_: seq<Point>, subject: seq<Point>, rank: nat)
    requires (forall p | p in subject :: rank <= |p|) && subject != [] && object_ != []
    ensures if subject[0][..rank] == object_[0] then Reached(object_, subject, rank, 0, 1, 0)
            else if |object_| > 1 && subject[0][..rank] == object_[1] then Reached(object_, subject, rank, 1, 1, 1)
            else !Accepted(object_, subject, rank)
  {
    FirstLeading(subject, rank);
    if |object_| > 1 { assert object_[1..][0] == object_[1]; }
  }

  /** At the end of the subject. */
  lemma SubjectDone(object_: seq<Point>, subject: seq<Point>, rank: nat, o: nat, skip: nat)
    requires forall p | p in subject :: rank <= |p|
    requires Reached(object_, subject, rank, o, |subject|, skip)
    ensures Accepted(object_, subject, rank)
       <==> o + 1 == |object_| || (o > 0 && SingleLast(subject, rank))
  {
    assert subject[..|subject|] == subject;
    assert object_[..o + 1] <= object_;
    var g := Leading(subject, rank);
    if skip == 1 { assert g <= object_[1..]; }
  }

  method DoDomainsConform(object_: seq<Point>, subject: seq<Point>, rank: nat) returns (result: bool)
    requires Ranks(object_, subject, rank)
    ensures result == Accepted(object_, subject, rank)
  {
    hide Accepted, Leading, Reached, SingleLast;
    result := true;
    var opid, spid := 0, 0;
    ghost var skip := 0;
    if subject != [] && object_ != [] {
      FirstTuple(object_, subject, rank);
    } else {
      NothingToCompare(object_, subject, rank);
    }
    while result && spid < |subject| && opid < |object_|
      invariant spid <= |subject| && opid <= |object_|
      invariant subject != [] && object_ != [] && !result ==> !Accepted(object_, subject, rank)
      invariant spid == 0 ==> opid == 0 && skip == 0 && result
      invariant result && 0 < spid < |subject| ==> opid < |object_|
      invariant result && 0 < spid < |subject| ==> Reached(object_, subject, rank, opid, spid, skip)
      invariant result && 0 < spid == |subject| ==> Accepted(object_, subject, rank)
      invariant subject == [] || object_ == [] ==> result
      decreases |subject| - spid
    {
      var pt := seq(rank, i => 0);
      ghost var start := spid;
      while result && spid < |subject|
        invariant start <= spid <= |subject| && opid < |object_|
        invariant result && 0 < spid ==> Reached(object_, subject, rank, opid, spid, skip)
        invariant result && start < spid ==>
                    if start == 0 then opid == 0 && skip == 0
                    else subject[spid - 2][..rank] == subject[spid - 1][..rank]
        invariant !result ==> start < spid && pt == subject[spid - 1][..rank] && pt != object_[opid]
        invariant !result && spid > 1 ==> Reached(object_, subject, rank, opid, spid - 1, skip)
        invariant !result && spid == 1 ==> opid == 0 && start == 0
        invariant start == 0 ==> opid == 0 && skip == 0
        decreases |subject| - spid, result
      {
        pt := subject[spid][..rank];
        result := pt == object_[opid];
        if result && spid > 0 { SameTuple(object_, subject, rank, opid, spid, skip); }
        spid := spid + 1;
      }
      opid := opid + 1;
      if !result {
        result := opid < |object_| && pt == object_[opid];
        if spid > 1 {
          NextTuple(object_, subject, rank, opid - 1, spid - 1, skip);
        } else {
          skip := 1;
        }
        if result && spid == |subject| {
          SubjectDone(object_, subject, rank, opid, skip);
          LastAlone(subject, rank);
        }
      } else {
        result := !(opid < |object_|);
        SubjectDone(object_, subject, rank, opid - 1, skip);
        if start > 0 { LastTwice(subject, rank); }
      }
    }
  }

  lemma NothingToCompare(object_: seq<Point>, subject: seq<Point>, rank: nat)
    requires (forall p | p in subject :: rank <= |p|) && (subject == [] || object_ == [])
    ensures Accepted(object_, subject, rank)
  {
  }

  lemma LastAlone(subject: seq<Point>, rank: nat)
    requires subject != [] && forall p | p in subject :: rank <= |p|
    requires |subject| > 1 ==> subject[|subject| - 2][..rank] != subject[|subject| - 1][..rank]
    ensures SingleLast(subject, rank)
  {
  }

  lemma LastTwice(subject: seq<Point>, rank: nat)
    requires |subject| > 1 && forall p | p in subject :: rank <= |p|
    requires subject[|subject| - 2][..rank] == subject[|subject| - 1][..rank]
    ensures !SingleLast(subject, rank)
  {
  }

  // ----- what is accepted beyond conforming subjects -----

  ghost predicate Conforms(object_: seq<Point>, subject: seq<Point>, rank: nat)
    requires forall p | p in subject :: rank <= |p|
  {
    Leading(subject, rank) == object_
  }

  /**
   No conforming subject is rejected.  Beyond them those are accepted that leave out the first object
   point, or that stop early with a tuple of a single point, or that are compared with nothing.
   */
  lemma AcceptedIs(object_: seq<Point>, subject: seq<Point>, rank: nat)
    requires forall p | p in subject :: rank <= |p|
    ensures Conforms(object_, subject, rank) ==> Accepted(object_, subject, rank)
    ensures Accepted(object_, subject, rank) ==>
              (Conforms(object_, subject, rank)
               <==> if object_ == [] then subject == []
                    else subject != [] && subject[0][..rank] == object_[0] && |Leading(subject, rank)| == |object_|)
  {
    if subject != [] { FirstLeading(subject, rank); }
  }

  /** One axis with the points 3 and 4: the subject that has only 4 and the one that goes on from 3 to 4 and stops. */
  lemma EarlyAndLate()
    ensures Accepted([[3], [4]], [[4]], 1) && !Conforms([[3], [4]], [[4]], 1)
    ensures Accepted([[3], [4], [5]], [[3], [4]], 1) && !Conforms([[3], [4], [5]], [[3], [4]], 1)
  {
    hide Leading;
    var a, b, o3: seq<Point> := [[4]], [[3], [4]], [[3], [4], [5]];
    var three, four: Point := [3], [4];
    assert three[..1] == [3] && four[..1] == [4] && [3][0] != [4][0];
    LeadingOfTwo(three, four, 1);
    assert a[0][..1] == [4] && b[0][..1] == [3] && b[1][..1] == [4];
    assert b[1..] == a && b <= o3;
  }

  lemma LeadingOfTwo(p: Point, q: Point, to: nat)
    requires to <= |p| && to <= |q| && p[..to] != q[..to]
    ensures Leading([q], to) == [q[..to]] && Leading([p, q], to) == [p[..to], q[..to]]
  {
    hide Leading;
    var a, b := [q], [p, q];
    FirstLeading(a, to);
    FirstLeading(b, to);
    LeadingStep(b, to, 1);
    assert a[..1] == a && b[..2] == b;
  }
}
