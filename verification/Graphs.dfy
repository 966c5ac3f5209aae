/** Finite link graphs: what `GetLinks` answers for every node, and reachability over links. */
module Graphs {

  /** The links of every node that can be fetched; a node outside the domain cannot be fetched. */
  type Graph<!N> = map<N, seq<N>>

  /** Every consecutive pair of `p` is a link of the graph. */
  ghost predicate IsPath<N>(g: Graph<N>, p: seq<N>) {
    forall i :: 0 <= i < |p| - 1 ==> p[i] in g && p[i + 1] in g[p[i]]
  }

  /** `p` leads from `a` to `b` by one or more links and, after its start, never meets `avoid`. */
  ghost predicate PathAvoiding<N>(g: Graph<N>, avoid: set<N>, p: seq<N>, a: N, b: N) {
    && |p| >= 2 && p[0] == a && p[|p| - 1] == b
    && IsPath(g, p)
    && forall i :: 1 <= i < |p| ==> p[i] !in avoid
  }

  ghost predicate ReachesAvoiding<N(!new)>(g: Graph<N>, avoid: set<N>, a: N, b: N) {
    exists p :: PathAvoiding(g, avoid, p, a, b)
  }

  /** `b` is found below `a`, by one or more links. */
  ghost predicate Reaches<N(!new)>(g: Graph<N>, a: N, b: N) {
    ReachesAvoiding(g, {}, a, b)
  }

  /** All links of the nodes in `from` lead into `to`, and all of these nodes can be fetched. */
  ghost predicate Covered<N>(g: Graph<N>, from: set<N>, to: set<N>) {
    forall x :: x in from ==> x in g && forall c :: c in g[x] ==> c in to
  }

  lemma OneLink<N(!new)>(g: Graph<N>, avoid: set<N>, a: N, b: N)
    requires a in g && b in g[a] && b !in avoid
    ensures ReachesAvoiding(g, avoid, a, b)
  {
    assert PathAvoiding(g, avoid, [a, b], a, b);
  }

  lemma Prepend<N(!new)>(g: Graph<N>, avoid: set<N>, avoid': set<N>, a: N, c: N, b: N)
    requires a in g && c in g[a] && c !in avoid
    requires avoid <= avoid' && ReachesAvoiding(g, avoid', c, b)
    ensures ReachesAvoiding(g, avoid, a, b)
  {
    var p :| PathAvoiding(g, avoid', p, c, b);
    var q := [a] + p;
    forall i | 0 <= i < |q| - 1 ensures q[i] in g && q[i + 1] in g[q[i]] {
      if i > 0 { assert q[i] == p[i - 1] && q[i + 1] == p[i]; }
    }
    assert PathAvoiding(g, avoid, q, a, b);
  }

  lemma Append<N(!new)>(g: Graph<N>, a: N, b: N, c: N)
    requires Reaches(g, a, b) && b in g && c in g[b]
    ensures Reaches(g, a, c)
  {
    var p :| PathAvoiding(g, {}, p, a, b);
    var q := p + [c];
    forall i | 0 <= i < |q| - 1 ensures q[i] in g && q[i + 1] in g[q[i]] {
      if i < |p| - 1 { assert q[i] == p[i] && q[i + 1] == p[i + 1]; }
    }
    assert PathAvoiding(g, {}, q, a, c);
  }

  /** A set that holds the links of `a`, and the links of all its members outside `avoid`,
      holds everything reached from `a` without meeting `avoid`. */
  lemma {:induction false} ClosedHoldsPath<N(!new)>(g: Graph<N>, avoid: set<N>, s: set<N>, p: seq<N>, a: N, b: N, k: nat)
    requires PathAvoiding(g, avoid, p, a, b) && 1 <= k < |p|
    requires Covered(g, {a}, s) && Covered(g, s - avoid, s)
    ensures p[k] in s
  {
    if k == 1 {
      assert p[0] in {a} && p[0 + 1] in g[p[0]];
    } else {
      ClosedHoldsPath(g, avoid, s, p, a, b, k - 1);
      assert p[k - 1] in s - avoid && p[(k - 1) + 1] in g[p[k - 1]];
    }
  }

  lemma ClosedHoldsReached<N(!new)>(g: Graph<N>, avoid: set<N>, s: set<N>, a: N)
    requires Covered(g, {a}, s) && Covered(g, s - avoid, s)
    ensures forall b :: ReachesAvoiding(g, avoid, a, b) ==> b in s
  {
    forall b | ReachesAvoiding(g, avoid, a, b) ensures b in s {
      var p :| PathAvoiding(g, avoid, p, a, b);
      ClosedHoldsPath(g, avoid, s, p, a, b, |p| - 1);
    }
  }
}
