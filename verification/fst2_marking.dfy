/**
 * Marking states through the spare bits of their control byte, as graph
 * explorations such as cycle detection do (Fst2.h): the two lowest bits
 * stay reserved for the initial and final flags.
 */
module Fst2Marking {
  import opened Fst2Model

  /** Sets the marking `bits` on state `n`; nothing else of the fst2 changes. */
  function MarkState(f: Fst2, n: nat, bits: bv8): (r: Fst2)
    requires n < |f.states| && IsMarkingBits(bits)
    ensures r == f.(states := r.states)
    ensures |r.states| == |f.states|
    ensures r.states[n].control & bits == bits
    ensures r.states[n].control & !bits == f.states[n].control & !bits
    ensures forall m :: 0 <= m < |f.states| && m != n ==> r.states[m] == f.states[m]
    ensures forall m :: 0 <= m < |f.states| ==>
              && r.states[m].transitions == f.states[m].transitions
              && (IsInitialState(r.states[m]) <==> IsInitialState(f.states[m]))
              && (IsFinalState(r.states[m]) <==> IsFinalState(f.states[m]))
  {
    var s := f.states[n];
    MarkingKeepsStatus(s, bits);
    f.(states := f.states[n := State(s.control | bits, s.transitions)])
  }

  /** Clears the marking `bits` from state `n`, leaving the initial and final flags. */
  function UnmarkState(f: Fst2, n: nat, bits: bv8): (r: Fst2)
    requires n < |f.states| && IsMarkingBits(bits)
    ensures r == f.(states := r.states)
    ensures |r.states| == |f.states|
    ensures r.states[n].control & bits == 0
    ensures r.states[n].control & !bits == f.states[n].control & !bits
    ensures forall m :: 0 <= m < |f.states| && m != n ==> r.states[m] == f.states[m]
    ensures forall m :: 0 <= m < |f.states| ==>
              && r.states[m].transitions == f.states[m].transitions
              && (IsInitialState(r.states[m]) <==> IsInitialState(f.states[m]))
              && (IsFinalState(r.states[m]) <==> IsFinalState(f.states[m]))
  {
    var s := f.states[n];
    f.(states := f.states[n := State(s.control & !bits, s.transitions)])
  }

  /**
   * Changing the control bytes of states, and nothing else, keeps an fst2
   * valid as long as every state keeps its initial status: validity reads
   * no other bit of a state's control byte.
   */
  lemma ControlChangeKeepsValid(f: Fst2, r: Fst2)
    requires Valid(f) && r == f.(states := r.states) && |r.states| == |f.states|
    requires forall m :: 0 <= m < |f.states| ==> r.states[m].transitions == f.states[m].transitions
    requires forall m :: 0 <= m < |f.states| ==> (IsInitialState(r.states[m]) <==> IsInitialState(f.states[m]))
    ensures Valid(r)
  {
    assert forall g :: 0 <= g <= |f.numberOfStatesPerGraphs| ==> GraphOffset(r, g) == GraphOffset(f, g);
  }

  lemma MarkStateKeepsValid(f: Fst2, n: nat, bits: bv8)
    requires n < |f.states| && IsMarkingBits(bits) && Valid(f)
    ensures Valid(MarkState(f, n, bits))
  {
    ControlChangeKeepsValid(f, MarkState(f, n, bits));
  }

  lemma UnmarkStateKeepsValid(f: Fst2, n: nat, bits: bv8)
    requires n < |f.states| && IsMarkingBits(bits) && Valid(f)
    ensures Valid(UnmarkState(f, n, bits))
  {
    ControlChangeKeepsValid(f, UnmarkState(f, n, bits));
  }

  /** A byte is determined by its bits inside and outside a mask. */
  lemma BitsDetermined(x: bv8, y: bv8, bits: bv8)
    requires x & bits == y & bits && x & !bits == y & !bits
    ensures x == y
  {
  }

  /** Unmarking undoes marking on a state that was not marked with those bits. */
  lemma UnmarkUndoesMark(f: Fst2, n: nat, bits: bv8)
    requires n < |f.states| && IsMarkingBits(bits) && f.states[n].control & bits == 0
    ensures UnmarkState(MarkState(f, n, bits), n, bits) == f
  {
    var m := MarkState(f, n, bits);
    var r := UnmarkState(m, n, bits);
    BitsDetermined(r.states[n].control, f.states[n].control, bits);
    assert r.states[n] == f.states[n];
    assert r.states == f.states;
  }
}
