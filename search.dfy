/**
 * The bookkeeping behind the `has_cycle` loop. Every stack entry, and every
 * visited location, is charged to the connection entry ("slot") that pushed
 * it, or to the root push of the start. All charged slots are distinct and
 * every slot of a visited node is charged, so a location popped twice means
 * two slots share a target, and an empty stack means the visited set is closed
 * and every slot's target was visited exactly once.
 */
module CycleSearch {
  import opened NetTypes
  import opened Reach

  datatype Slot = Root | Conn(from: Location, k: nat)

  /** The slot exists: it is the root push, or a connection of a visited node. */
  ghost predicate SlotOk(g: Layers, visited: set<Location>, o: Slot) {
    o.Root? || (o.from in visited && ValidLoc(g, o.from) && o.k < |NodeAt(g, o.from).connections|)
  }

  /** The location a slot pushes. */
  ghost function SlotTarget(g: Layers, start: Location, o: Slot): Location
    requires o.Conn? ==> ValidLoc(g, o.from) && o.k < |NodeAt(g, o.from).connections|
  {
    if o.Root? then start else NodeAt(g, o.from).connections[o.k].to
  }

  ghost function Slots(loc: Location, n: nat): (r: seq<Slot>)
    ensures |r| == n && forall k :: 0 <= k < n ==> r[k] == Conn(loc, k)
  {
    seq(n, k requires 0 <= k < n => Conn(loc, k))
  }

  /** Each stack entry is the target of its own, existing slot. */
  ghost predicate StackCharged(g: Layers, start: Location, visited: set<Location>, stack: seq<Location>, origin: seq<Slot>) {
    |origin| == |stack| &&
    forall i :: 0 <= i < |origin| ==> SlotOk(g, visited, origin[i]) && SlotTarget(g, start, origin[i]) == stack[i]
  }

  /** Each visited location is the target of the slot whose push it was popped as. */
  ghost predicate SourceCharged(g: Layers, start: Location, visited: set<Location>, source: map<Location, Slot>) {
    source.Keys == visited &&
    forall v :: v in source ==> SlotOk(g, visited, source[v]) && SlotTarget(g, start, source[v]) == v
  }

  /** No slot is charged twice. */
  ghost predicate ChargesDistinct(origin: seq<Slot>, source: map<Location, Slot>) {
    && (forall i, j :: 0 <= i < j < |origin| ==> origin[i] != origin[j])
    && (forall i, v :: 0 <= i < |origin| && v in source ==> origin[i] != source[v])
  }

  /** Every existing slot is charged. */
  ghost predicate AllCharged(g: Layers, visited: set<Location>, origin: seq<Slot>, source: map<Location, Slot>) {
    && (Root in origin || Root in source.Values)
    && (forall u, k :: u in visited && ValidLoc(g, u) && 0 <= k < |NodeAt(g, u).connections| ==>
          Conn(u, k) in origin || Conn(u, k) in source.Values)
  }

  ghost predicate AllReachable(g: Layers, start: Location, visited: set<Location>, stack: seq<Location>) {
    && (forall v :: v in visited ==> Reachable(g, start, v))
    && (forall i :: 0 <= i < |stack| ==> Reachable(g, start, stack[i]))
  }

  /** The loop invariant of the search. */
  ghost predicate SearchInv(g: Layers, start: Location, visited: set<Location>, stack: seq<Location>,
                            origin: seq<Slot>, source: map<Location, Slot>)
  {
    && StackCharged(g, start, visited, stack, origin)
    && SourceCharged(g, start, visited, source)
    && ChargesDistinct(origin, source)
    && AllCharged(g, visited, origin, source)
    && AllReachable(g, start, visited, stack)
  }

  lemma SearchInit(g: Layers, start: Location)
    ensures SearchInv(g, start, {}, [start], [Root], map[])
  {
    ReachableStart(g, start);
  }

  /** Two distinct existing slots of reachable nodes (or the root) pushing the same location break uniqueness. */
  lemma TwoSlotsOneTarget(g: Layers, start: Location, visited: set<Location>, o: Slot, p: Slot)
    requires o != p && SlotOk(g, visited, o) && SlotOk(g, visited, p)
    requires SlotTarget(g, start, o) == SlotTarget(g, start, p)
    requires forall v :: v in visited ==> Reachable(g, start, v)
    ensures !UniquelyReached(g, start)
  {
    if o.Root? {
      assert p.Conn? && Reachable(g, start, p.from);
      assert NodeAt(g, p.from).connections[p.k].to == start;
    } else if p.Root? {
      assert Reachable(g, start, o.from);
      assert NodeAt(g, o.from).connections[o.k].to == start;
    } else {
      assert Reachable(g, start, o.from) && Reachable(g, start, p.from);
      if o.from == p.from {
        if o.k < p.k {
          assert NodeAt(g, o.from).connections[o.k].to == NodeAt(g, o.from).connections[p.k].to;
        } else {
          assert NodeAt(g, o.from).connections[p.k].to == NodeAt(g, o.from).connections[o.k].to;
        }
      } else {
        assert NodeAt(g, o.from).connections[o.k].to == NodeAt(g, p.from).connections[p.k].to;
      }
    }
  }

  /** Popping an already visited location: two distinct slots push the same location. */
  lemma SearchPopVisited(g: Layers, start: Location, visited: set<Location>, stack: seq<Location>,
                         origin: seq<Slot>, source: map<Location, Slot>)
    requires SearchInv(g, start, visited, stack, origin, source)
    requires |stack| > 0 && stack[|stack| - 1] in visited
    ensures !UniquelyReached(g, start)
  {
    var loc := stack[|stack| - 1];
    TwoSlotsOneTarget(g, start, visited, origin[|origin| - 1], source[loc]);
  }

  lemma PopNewStack(g: Layers, start: Location, visited: set<Location>, stack: seq<Location>, origin: seq<Slot>)
    requires StackCharged(g, start, visited, stack, origin) && AllReachable(g, start, visited, stack)
    requires ReachableInRange(g, start) && |stack| > 0
    ensures ValidLoc(g, stack[|stack| - 1])
    ensures var loc := stack[|stack| - 1];
      var stack' := stack[..|stack| - 1] + Targets(NodeAt(g, loc).connections);
      StackCharged(g, start, visited + {loc}, stack', origin[..|origin| - 1] + Slots(loc, |NodeAt(g, loc).connections|)) &&
      AllReachable(g, start, visited + {loc}, stack')
  {
    var n := |stack|;
    var loc := stack[n - 1];
    var conns := NodeAt(g, loc).connections;
    var visited' := visited + {loc};
    var stack' := stack[..n - 1] + Targets(conns);
    var origin' := origin[..n - 1] + Slots(loc, |conns|);
    forall i | 0 <= i < |origin'|
      ensures SlotOk(g, visited', origin'[i]) && SlotTarget(g, start, origin'[i]) == stack'[i]
      ensures Reachable(g, start, stack'[i])
    {
      if i < n - 1 {
        assert origin'[i] == origin[i] && stack'[i] == stack[i];
        assert SlotOk(g, visited, origin[i]);
      } else {
        ReachableStep(g, start, loc, i - (n - 1));
      }
    }
  }

  lemma PopNewSource(g: Layers, start: Location, visited: set<Location>, stack: seq<Location>,
                     origin: seq<Slot>, source: map<Location, Slot>)
    requires StackCharged(g, start, visited, stack, origin) && SourceCharged(g, start, visited, source)
    requires |stack| > 0
    ensures SourceCharged(g, start, visited + {stack[|stack| - 1]}, source[stack[|stack| - 1] := origin[|origin| - 1]])
  {
    var loc := stack[|stack| - 1];
    var source' := source[loc := origin[|origin| - 1]];
    forall v | v in source' ensures SlotOk(g, visited + {loc}, source'[v]) && SlotTarget(g, start, source'[v]) == v {
      if v != loc {
        assert SlotOk(g, visited, source[v]);
      }
    }
  }

  lemma PopNewDistinct(g: Layers, start: Location, visited: set<Location>, stack: seq<Location>,
                       origin: seq<Slot>, source: map<Location, Slot>, m: nat)
    requires StackCharged(g, start, visited, stack, origin) && SourceCharged(g, start, visited, source)
    requires ChargesDistinct(origin, source)
    requires |stack| > 0 && stack[|stack| - 1] !in visited
    ensures var loc := stack[|stack| - 1];
      ChargesDistinct(origin[..|origin| - 1] + Slots(loc, m), source[loc := origin[|origin| - 1]])
  {
    var n := |stack|;
    var loc := stack[n - 1];
    var o := origin[n - 1];
    var origin' := origin[..n - 1] + Slots(loc, m);
    var source' := source[loc := o];
    forall i, j | 0 <= i < j < |origin'| ensures origin'[i] != origin'[j] {
      if j < n - 1 {
        assert origin'[i] == origin[i] && origin'[j] == origin[j];
      } else if i < n - 1 {
        assert origin'[i] == origin[i] && SlotOk(g, visited, origin[i]);
      }
    }
    forall i, v | 0 <= i < |origin'| && v in source' ensures origin'[i] != source'[v] {
      if i < n - 1 {
        assert origin'[i] == origin[i];
        if v == loc {
          assert source'[v] == origin[n - 1];
        }
      } else if v != loc {
        assert SlotOk(g, visited, source[v]);
      } else {
        assert SlotOk(g, visited, o);
      }
    }
  }

  lemma PopNewCharged(g: Layers, visited: set<Location>, stack: seq<Location>,
                      origin: seq<Slot>, source: map<Location, Slot>)
    requires AllCharged(g, visited, origin, source) && source.Keys == visited
    requires |origin| == |stack| > 0 && stack[|stack| - 1] !in visited && ValidLoc(g, stack[|stack| - 1])
    ensures var loc := stack[|stack| - 1];
      AllCharged(g, visited + {loc}, origin[..|origin| - 1] + Slots(loc, |NodeAt(g, loc).connections|),
        source[loc := origin[|origin| - 1]])
  {
    var n := |stack|;
    var loc := stack[n - 1];
    var conns := NodeAt(g, loc).connections;
    var origin' := origin[..n - 1] + Slots(loc, |conns|);
    var source' := source[loc := origin[n - 1]];
    if Root in origin {
      var i :| 0 <= i < |origin| && origin[i] == Root;
      if i < n - 1 {
        assert origin'[i] == Root;
      } else {
        assert source'[loc] == Root;
      }
    } else {
      var v :| v in source && source[v] == Root;
      assert source'[v] == Root;
    }
    forall u, k | u in visited + {loc} && ValidLoc(g, u) && 0 <= k < |NodeAt(g, u).connections|
      ensures Conn(u, k) in origin' || Conn(u, k) in source'.Values
    {
      if u == loc {
        assert origin'[n - 1 + k] == Conn(u, k);
      } else if Conn(u, k) in origin {
        var i :| 0 <= i < |origin| && origin[i] == Conn(u, k);
        if i < n - 1 {
          assert origin'[i] == Conn(u, k);
        } else {
          assert source'[loc] == Conn(u, k);
        }
      } else {
        var v :| v in source && source[v] == Conn(u, k);
        assert source'[v] == Conn(u, k);
      }
    }
  }

  /** Popping a new location: mark it visited, charge it to its slot and push its connections' targets. */
  lemma SearchPopNew(g: Layers, start: Location, visited: set<Location>, stack: seq<Location>,
                     origin: seq<Slot>, source: map<Location, Slot>)
    requires SearchInv(g, start, visited, stack, origin, source) && ReachableInRange(g, start)
    requires |stack| > 0 && stack[|stack| - 1] !in visited
    ensures ValidLoc(g, stack[|stack| - 1])
    ensures var loc := stack[|stack| - 1];
      SearchInv(g, start, visited + {loc},
        stack[..|stack| - 1] + Targets(NodeAt(g, loc).connections),
        origin[..|origin| - 1] + Slots(loc, |NodeAt(g, loc).connections|),
        source[loc := origin[|origin| - 1]])
  {
    PopNewStack(g, start, visited, stack, origin);
    var loc := stack[|stack| - 1];
    PopNewSource(g, start, visited, stack, origin, source);
    PopNewDistinct(g, start, visited, stack, origin, source, |NodeAt(g, loc).connections|);
    PopNewCharged(g, visited, stack, origin, source);
  }

  /** An empty stack: the visited set is closed and holds every reachable location, each reached once. */
  lemma SearchDone(g: Layers, start: Location, visited: set<Location>,
                   origin: seq<Slot>, source: map<Location, Slot>)
    requires SearchInv(g, start, visited, [], origin, source)
    ensures UniquelyReached(g, start)
  {
    var w :| w in source && source[w] == Root;
    assert w == start;
    assert Closed(g, visited) by {
      forall u, k | u in visited && ValidLoc(g, u) && 0 <= k < |NodeAt(g, u).connections|
        ensures NodeAt(g, u).connections[k].to in visited
      {
        var v :| v in source && source[v] == Conn(u, k);
      }
    }
    ReachableInside(g, visited, start);
    forall u, k | Reachable(g, start, u) && ValidLoc(g, u) && 0 <= k < |NodeAt(g, u).connections|
      ensures NodeAt(g, u).connections[k].to != start
    {
      var v :| v in source && source[v] == Conn(u, k);
    }
    forall u, i, j | Reachable(g, start, u) && ValidLoc(g, u) && 0 <= i < j < |NodeAt(g, u).connections|
      ensures NodeAt(g, u).connections[i].to != NodeAt(g, u).connections[j].to
    {
      var v1 :| v1 in source && source[v1] == Conn(u, i);
      var v2 :| v2 in source && source[v2] == Conn(u, j);
    }
    forall u, v, i, j |
      Reachable(g, start, u) && Reachable(g, start, v) && u != v && ValidLoc(g, u) && ValidLoc(g, v) &&
      0 <= i < |NodeAt(g, u).connections| && 0 <= j < |NodeAt(g, v).connections|
      ensures NodeAt(g, u).connections[i].to != NodeAt(g, v).connections[j].to
    {
      var v1 :| v1 in source && source[v1] == Conn(u, i);
      var v2 :| v2 in source && source[v2] == Conn(v, j);
    }
  }
}
