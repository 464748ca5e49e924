/**
 * What `has_cycle` decides. The search pushes the target of every connection
 * of every node it pops, and reports `true` on the first location popped a
 * second time. It therefore answers whether the connections reachable from
 * the start form a tree rooted there: no connection back into the start, and
 * no location targeted by two connection entries (of one node or of two).
 */
module Reach {
  import opened NetTypes

  /** `t` is the target of some connection of the existing node `u`. */
  ghost predicate Step(g: Layers, u: Location, t: Location) {
    ValidLoc(g, u) && HasTarget(NodeAt(g, u).connections, t)
  }

  /** A non-empty sequence of locations, each a connection target of the one before. */
  ghost predicate IsWalk(g: Layers, w: seq<Location>) {
    |w| > 0 && forall i :: 0 <= i < |w| - 1 ==> Step(g, w[i], w[i + 1])
  }

  ghost predicate Reachable(g: Layers, s: Location, t: Location) {
    exists w :: IsWalk(g, w) && w[0] == s && w[|w| - 1] == t
  }

  /** Every location reachable from `s` exists, so the search never indexes out of range. */
  ghost predicate ReachableInRange(g: Layers, s: Location) {
    forall t :: Reachable(g, s, t) ==> ValidLoc(g, t)
  }

  /** No two connection entries of the part reachable from `s` (nor `s` itself) share a target. */
  ghost predicate UniquelyReached(g: Layers, s: Location) {
    && (forall u, k :: Reachable(g, s, u) && ValidLoc(g, u) && 0 <= k < |NodeAt(g, u).connections| ==>
          NodeAt(g, u).connections[k].to != s)
    && (forall u, i, j :: Reachable(g, s, u) && ValidLoc(g, u) && 0 <= i < j < |NodeAt(g, u).connections| ==>
          NodeAt(g, u).connections[i].to != NodeAt(g, u).connections[j].to)
    && (forall u, v, i, j ::
          (Reachable(g, s, u) && Reachable(g, s, v) && u != v && ValidLoc(g, u) && ValidLoc(g, v) &&
           0 <= i < |NodeAt(g, u).connections| && 0 <= j < |NodeAt(g, v).connections|) ==>
          NodeAt(g, u).connections[i].to != NodeAt(g, v).connections[j].to)
  }

  lemma ReachableStart(g: Layers, s: Location)
    ensures Reachable(g, s, s)
  {
    assert IsWalk(g, [s]);
  }

  /** Following one connection from a reachable node stays reachable. */
  lemma ReachableStep(g: Layers, s: Location, u: Location, k: nat)
    requires Reachable(g, s, u) && ValidLoc(g, u) && k < |NodeAt(g, u).connections|
    ensures Reachable(g, s, NodeAt(g, u).connections[k].to)
  {
    var w :| IsWalk(g, w) && w[0] == s && w[|w| - 1] == u;
    var t := NodeAt(g, u).connections[k].to;
    var w' := w + [t];
    assert Step(g, u, t);
    forall i | 0 <= i < |w'| - 1 ensures Step(g, w'[i], w'[i + 1]) {
      if i + 1 < |w| {
        assert Step(g, w[i], w[i + 1]);
      }
    }
    assert IsWalk(g, w');
  }

  /** A set closed under following connections. */
  ghost predicate Closed(g: Layers, S: set<Location>) {
    forall u, k :: u in S && ValidLoc(g, u) && 0 <= k < |NodeAt(g, u).connections| ==>
      NodeAt(g, u).connections[k].to in S
  }

  /** A walk that starts inside a closed set stays inside it. */
  lemma {:induction false} WalkStaysInside(g: Layers, S: set<Location>, w: seq<Location>)
    requires IsWalk(g, w) && w[0] in S && Closed(g, S)
    ensures w[|w| - 1] in S
    decreases |w|
  {
    if |w| > 1 {
      var init := w[..|w| - 1];
      assert IsWalk(g, init) by {
        forall i | 0 <= i < |init| - 1 ensures Step(g, init[i], init[i + 1]) {
          assert Step(g, w[i], w[i + 1]);
        }
      }
      WalkStaysInside(g, S, init);
      assert Step(g, w[|w| - 2], w[|w| - 1]);
      var k :| 0 <= k < |NodeAt(g, w[|w| - 2]).connections| && NodeAt(g, w[|w| - 2]).connections[k].to == w[|w| - 1];
    }
  }

  /** Everything reachable from a member of a closed set is in the set. */
  lemma ReachableInside(g: Layers, S: set<Location>, s: Location)
    requires s in S && Closed(g, S)
    ensures forall t :: Reachable(g, s, t) ==> t in S
  {
    forall t | Reachable(g, s, t) ensures t in S {
      var w :| IsWalk(g, w) && w[0] == s && w[|w| - 1] == t;
      WalkStaysInside(g, S, w);
    }
  }

  /**
   * A walk from `s` that visits some location twice (a cycle reachable from
   * `s`, or two routes meeting) means the reachable part is not a tree.
   */
  lemma {:induction false} RepeatBreaksUniqueness(g: Layers, s: Location, w: seq<Location>, i: nat, j: nat)
    requires IsWalk(g, w) && w[0] == s && i < j < |w| && w[i] == w[j]
    ensures !UniquelyReached(g, s)
    decreases j
  {
    var u := w[j - 1];
    assert Step(g, u, w[j]);
    var kj :| 0 <= kj < |NodeAt(g, u).connections| && NodeAt(g, u).connections[kj].to == w[j];
    assert Reachable(g, s, u) by {
      assert IsWalk(g, w[..j]) by {
        forall m | 0 <= m < j - 1 ensures Step(g, w[..j][m], w[..j][m + 1]) {
          assert Step(g, w[m], w[m + 1]);
        }
      }
    }
    if i == 0 {
      // A connection of a reachable node leads back to the start.
      assert NodeAt(g, u).connections[kj].to == s;
    } else {
      var v := w[i - 1];
      assert Step(g, v, w[i]);
      var ki :| 0 <= ki < |NodeAt(g, v).connections| && NodeAt(g, v).connections[ki].to == w[i];
      assert Reachable(g, s, v) by {
        assert IsWalk(g, w[..i]) by {
          forall m | 0 <= m < i - 1 ensures Step(g, w[..i][m], w[..i][m + 1]) {
            assert Step(g, w[m], w[m + 1]);
          }
        }
      }
      if u != v {
        // Two different reachable nodes target the same location.
        assert NodeAt(g, v).connections[ki].to == NodeAt(g, u).connections[kj].to;
      } else {
        // The two routes already met one step earlier.
        RepeatBreaksUniqueness(g, s, w, i - 1, j - 1);
      }
    }
  }

  /**
   * A closed set around `s` in which no connection entry targets `s` and no
   * two entries share a target holds everything reachable, so the reachable
   * part is a tree.
   */
  lemma UniqueOnClosed(g: Layers, s: Location, S: set<Location>)
    requires s in S && Closed(g, S)
    requires forall u, k :: u in S && ValidLoc(g, u) && 0 <= k < |NodeAt(g, u).connections| ==>
      NodeAt(g, u).connections[k].to != s
    requires forall u, i, j :: u in S && ValidLoc(g, u) && 0 <= i < j < |NodeAt(g, u).connections| ==>
      NodeAt(g, u).connections[i].to != NodeAt(g, u).connections[j].to
    requires forall u, v, i, j ::
      (u in S && v in S && u != v && ValidLoc(g, u) && ValidLoc(g, v) &&
       0 <= i < |NodeAt(g, u).connections| && 0 <= j < |NodeAt(g, v).connections|) ==>
      NodeAt(g, u).connections[i].to != NodeAt(g, v).connections[j].to
    ensures UniquelyReached(g, s)
  {
    ReachableInside(g, S, s);
  }

  /** `c` lists distinct existing nodes, each with one connection to the next and the last with none. */
  ghost predicate Chain(g: Layers, c: seq<Location>) {
    && |c| > 0
    && (forall i, j :: 0 <= i < j < |c| ==> c[i] != c[j])
    && (forall i :: 0 <= i < |c| ==> ValidLoc(g, c[i]))
    && (forall i :: 0 <= i < |c| - 1 ==> |NodeAt(g, c[i]).connections| == 1 && NodeAt(g, c[i]).connections[0].to == c[i + 1])
    && |NodeAt(g, c[|c| - 1]).connections| == 0
  }

  /** Each connection entry of a chain node leads to the next chain element. */
  lemma ChainTarget(g: Layers, c: seq<Location>, a: nat, k: nat)
    requires Chain(g, c) && a < |c| && k < |NodeAt(g, c[a]).connections|
    ensures a + 1 < |c| && k == 0 && NodeAt(g, c[a]).connections[k].to == c[a + 1]
  {
  }

  lemma ChainClosed(g: Layers, c: seq<Location>, S: set<Location>)
    requires Chain(g, c) && S == set i | 0 <= i < |c| :: c[i]
    ensures Closed(g, S)
    ensures forall u, k :: u in S && ValidLoc(g, u) && 0 <= k < |NodeAt(g, u).connections| ==>
      NodeAt(g, u).connections[k].to != c[0]
  {
    forall u, k | u in S && ValidLoc(g, u) && 0 <= k < |NodeAt(g, u).connections|
      ensures NodeAt(g, u).connections[k].to in S && NodeAt(g, u).connections[k].to != c[0]
    {
      var a :| 0 <= a < |c| && c[a] == u;
      ChainTarget(g, c, a, k);
    }
  }

  lemma ChainDistinctTargets(g: Layers, c: seq<Location>, S: set<Location>)
    requires Chain(g, c) && S == set i | 0 <= i < |c| :: c[i]
    ensures forall u, v, i, j ::
      (u in S && v in S && u != v && ValidLoc(g, u) && ValidLoc(g, v) &&
       0 <= i < |NodeAt(g, u).connections| && 0 <= j < |NodeAt(g, v).connections|) ==>
      NodeAt(g, u).connections[i].to != NodeAt(g, v).connections[j].to
  {
    forall u, v, i, j |
      u in S && v in S && u != v && ValidLoc(g, u) && ValidLoc(g, v) &&
      0 <= i < |NodeAt(g, u).connections| && 0 <= j < |NodeAt(g, v).connections|
      ensures NodeAt(g, u).connections[i].to != NodeAt(g, v).connections[j].to
    {
      var a :| 0 <= a < |c| && c[a] == u;
      var b :| 0 <= b < |c| && c[b] == v;
      ChainTarget(g, c, a, i);
      ChainTarget(g, c, b, j);
    }
  }

  /** Everything reachable from the head of a chain is in range and reached once. */
  lemma ChainIsTree(g: Layers, c: seq<Location>)
    requires Chain(g, c)
    ensures ReachableInRange(g, c[0]) && UniquelyReached(g, c[0])
  {
    var S := set i | 0 <= i < |c| :: c[i];
    ChainClosed(g, c, S);
    ChainDistinctTargets(g, c, S);
    forall u | u in S && ValidLoc(g, u) ensures |NodeAt(g, u).connections| <= 1 {
      var a :| 0 <= a < |c| && c[a] == u;
      if |NodeAt(g, u).connections| > 1 {
        ChainTarget(g, c, a, 1);
      }
    }
    assert c[0] in S;
    ReachableInside(g, S, c[0]);
    UniqueOnClosed(g, c[0], S);
  }

  /** Existing nodes whose connections all lead back into the list: everything reachable from its head is in range. */
  lemma ListedInRange(g: Layers, c: seq<Location>)
    requires |c| > 0
    requires forall i :: 0 <= i < |c| ==> ValidLoc(g, c[i])
    requires forall i, k :: 0 <= i < |c| && 0 <= k < |NodeAt(g, c[i]).connections| ==> NodeAt(g, c[i]).connections[k].to in c
    ensures ReachableInRange(g, c[0])
  {
    var S := set i | 0 <= i < |c| :: c[i];
    forall u, k | u in S && ValidLoc(g, u) && 0 <= k < |NodeAt(g, u).connections|
      ensures NodeAt(g, u).connections[k].to in S
    {
      var a :| 0 <= a < |c| && c[a] == u;
      assert NodeAt(g, c[a]).connections[k].to in c;
    }
    assert c[0] in S;
    ReachableInside(g, S, c[0]);
  }

  /** When no edge dangles, everything reachable from an existing node exists. */
  lemma InRangeFromValid(g: Layers, s: Location)
    requires EdgesInRange(g) && ValidLoc(g, s)
    ensures ReachableInRange(g, s)
  {
    forall t | Reachable(g, s, t) ensures ValidLoc(g, t) {
      var w :| IsWalk(g, w) && w[0] == s && w[|w| - 1] == t;
      if |w| > 1 {
        var u := w[|w| - 2];
        assert Step(g, u, t);
        var k :| 0 <= k < |NodeAt(g, u).connections| && NodeAt(g, u).connections[k].to == t;
        assert ValidLoc(g, g[u.layer][u.node].connections[k].to);
      }
    }
  }
}
