/**
 * Absolute state numbering of Fst2.h: local state `i` of sub-graph `g` is
 * state GraphOffset(g) + i, where GraphOffset(g) counts the states of all
 * earlier sub-graphs. GlobalState computes the absolute number and
 * LocateState recovers the sub-graph and the local index from it.
 */
module Fst2Addressing {
  import opened Fst2Model

  /** A sub-graph and a local state index within it. */
  datatype Location = Location(graph: nat, local: nat)

  lemma SumPrefixStep(s: seq<int>, g: nat)
    requires g < |s|
    ensures Sum(s[..g + 1]) == Sum(s[..g]) + s[g]
  {
    assert s[..g + 1][..g] == s[..g];
  }

  /** Offsets grow with the graph index, from 0 up to the number of states. */
  lemma {:induction false} OffsetMonotone(f: Fst2, g1: nat, g2: nat)
    requires WellFormedGraphs(f) && g1 <= g2 <= f.numberOfGraphs
    ensures GraphOffset(f, g1) <= GraphOffset(f, g2)
    decreases g2 - g1
  {
    if g1 < g2 {
      SumPrefixStep(f.numberOfStatesPerGraphs, g2 - 1);
      OffsetMonotone(f, g1, g2 - 1);
    }
  }

  /** The offsets start at 0 and end at the number of states. */
  lemma OffsetBounds(f: Fst2)
    requires WellFormedGraphs(f)
    ensures GraphOffset(f, 0) == 0
    ensures GraphOffset(f, f.numberOfGraphs) == f.numberOfStates
  {
    assert f.numberOfStatesPerGraphs[..0] == [];
    assert f.numberOfStatesPerGraphs[..f.numberOfGraphs] == f.numberOfStatesPerGraphs;
  }

  /** The absolute number of local state `i` of sub-graph `g`. */
  function GlobalState(f: Fst2, g: nat, i: nat): (n: nat)
    requires WellFormedGraphs(f)
    requires g < f.numberOfGraphs && i < f.numberOfStatesPerGraphs[g]
    ensures n < f.numberOfStates
    ensures GraphOffset(f, g) <= n < GraphOffset(f, g + 1)
  {
    OffsetBounds(f);
    OffsetMonotone(f, 0, g);
    OffsetMonotone(f, g + 1, f.numberOfGraphs);
    SumPrefixStep(f.numberOfStatesPerGraphs, g);
    GraphOffset(f, g) + i
  }

  /** Different (graph, local index) pairs have different absolute numbers. */
  lemma GlobalStateInjective(f: Fst2, g1: nat, i1: nat, g2: nat, i2: nat)
    requires WellFormedGraphs(f)
    requires g1 < f.numberOfGraphs && i1 < f.numberOfStatesPerGraphs[g1]
    requires g2 < f.numberOfGraphs && i2 < f.numberOfStatesPerGraphs[g2]
    ensures GlobalState(f, g1, i1) == GlobalState(f, g2, i2) <==> g1 == g2 && i1 == i2
  {
    if g1 < g2 {
      OffsetMonotone(f, g1 + 1, g2);
    } else if g2 < g1 {
      OffsetMonotone(f, g2 + 1, g1);
    }
  }

  function LocateFrom(f: Fst2, g: nat, n: nat): (loc: Location)
    requires WellFormedGraphs(f) && g <= f.numberOfGraphs
    requires GraphOffset(f, g) <= n < f.numberOfStates
    ensures g <= loc.graph < f.numberOfGraphs
    ensures loc.local < f.numberOfStatesPerGraphs[loc.graph]
    ensures GlobalState(f, loc.graph, loc.local) == n
    decreases f.numberOfGraphs - g
  {
    OffsetBounds(f);
    SumPrefixStep(f.numberOfStatesPerGraphs, g);
    if n < GraphOffset(f, g + 1) then
      Location(g, n - GraphOffset(f, g))
    else
      LocateFrom(f, g + 1, n)
  }

  /** The sub-graph that absolute state `n` belongs to, and its index there. */
  function LocateState(f: Fst2, n: nat): (loc: Location)
    requires WellFormedGraphs(f) && n < f.numberOfStates
    ensures loc.graph < f.numberOfGraphs
    ensures loc.local < f.numberOfStatesPerGraphs[loc.graph]
    ensures GlobalState(f, loc.graph, loc.local) == n
  {
    OffsetBounds(f);
    LocateFrom(f, 0, n)
  }

  /** Locating the absolute number of a local state gives back that local state. */
  lemma LocateGlobalState(f: Fst2, g: nat, i: nat)
    requires WellFormedGraphs(f)
    requires g < f.numberOfGraphs && i < f.numberOfStatesPerGraphs[g]
    ensures LocateState(f, GlobalState(f, g, i)) == Location(g, i)
  {
    var loc := LocateState(f, GlobalState(f, g, i));
    GlobalStateInjective(f, g, i, loc.graph, loc.local);
  }

  /** In a valid fst2 every transition's target is a state of some sub-graph. */
  lemma TransitionTargetLocated(f: Fst2, n: nat, t: Transition)
    requires Valid(f) && n < |f.states| && t in f.states[n].transitions
    ensures 0 <= t.stateNumber < f.numberOfStates
    ensures LocateState(f, t.stateNumber).graph < f.numberOfGraphs
  {
  }

  /** Each sub-graph's listed initial state is located in that sub-graph and is marked initial. */
  lemma InitialStateLocated(f: Fst2, g: nat)
    requires Valid(f) && g < f.numberOfGraphs
    ensures 0 <= f.initialStates[g] < f.numberOfStates
    ensures LocateState(f, f.initialStates[g]).graph == g
    ensures IsInitialState(f.states[f.initialStates[g]])
  {
    var i := f.initialStates[g] - GraphOffset(f, g);
    assert GlobalState(f, g, i) == f.initialStates[g];
    LocateGlobalState(f, g, i);
  }

  /** Two sub-graphs of 3 and 5 states: state 6 is local state 3 of the second. */
  lemma TwoGraphExample(s: State)
    ensures var f := Fst2([s, s, s, s, s, s, s, s], [], 2, 8, 0, [0, 3], ["main", "sub"], [3, 5], []);
            && WellFormedGraphs(f)
            && GraphOffset(f, 1) == 3
            && LocateState(f, 6) == Location(1, 3)
  {
    var f := Fst2([s, s, s, s, s, s, s, s], [], 2, 8, 0, [0, 3], ["main", "sub"], [3, 5], []);
    var counts := f.numberOfStatesPerGraphs;
    assert counts[..0] == [] && counts[..1] == [3] && counts[..2] == counts;
    assert counts[..1][..0] == [] && counts[..2][..1] == [3];
    assert WellFormedGraphs(f);
    LocateGlobalState(f, 1, 3);
  }
}
