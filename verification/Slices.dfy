/** A piece of a list standing at a position. */
module Slices {

  ghost predicate HoldsAt<T(!new)>(s: seq<T>, n: nat, piece: seq<T>) {
    n + |piece| <= |s| && s[n..n + |piece|] == piece
  }

  lemma HoldsSplit<T(!new)>(s: seq<T>, n: nat, a: seq<T>, b: seq<T>)
    requires HoldsAt(s, n, a + b)
    ensures HoldsAt(s, n, a) && HoldsAt(s, n + |a|, b)
  {
    var all := s[n..n + |a + b|];
    assert s[n..n + |a|] == all[..|a|] == a;
    assert s[n + |a|..n + |a| + |b|] == all[|a|..] == b;
  }

  lemma HoldsElement<T(!new)>(s: seq<T>, n: nat, piece: seq<T>, m: nat)
    requires HoldsAt(s, n, piece) && m < |piece|
    ensures n + m < |s| && s[n + m] == piece[m]
  {
    assert s[n..n + |piece|][m] == piece[m];
  }
}
