/**
 * The fst2 automaton of Fst2.h: tags, states, transitions, the variable
 * list and the automaton that owns them, with the invariants the header's
 * comments promise stated as the predicate Valid.
 *
 * Linked lists (transitions of a state, variable list) are sequences in
 * their list order; nullable strings are Option<string>; the control bytes
 * (`unsigned char`) are bv8.
 */
module Fst2Model {
  import opened Wrappers

  /** Upper bound on the number of tags of a .fst2. */
  const MaxFst2Tags: nat := 100000

  /** Upper bound on the number of states of a .fst2. */
  const MaxFst2States: nat := 500000

  /**
   * The nature of a tag (its `number`). The numeric codes are defined in
   * LocateConstants.h, which is not part of this model; only the two
   * natures of variable declarations ($a( and $a)) matter here.
   */
  datatype TagNature = VariableStart | VariableEnd | OtherTag(code: int)

  /** One tag (edge label) of a .fst2. */
  datatype Tag = Tag(
    number: TagNature,
    control: bv8,
    input: string,                   // the input part, or the variable name of a declaration
    output: string,                  // never absent: "" when there is no transduction
    inflected: Option<string>,       // "built" in <built,build.V>
    lemmaText: Option<string>,       // "build" in <build.V> or <built,build.V>
    codes: Option<string>,           // "V+t:P1s:P2s" in <build.V+t:P1s:P2s>
    matchingTokens: seq<int>,        // the tokens this tag can match
    numberOfMatchingTokens: int,     // cached length of matchingTokens
    compoundPattern: int,            // number of the compound pattern of the tag
    contentGF: Option<string>,       // the morphological filter, if any
    entryMasterGF: int               // the filter's global number, -1 without a filter
  )

  /** One transition: the tag it reads and its ABSOLUTE target state. */
  datatype Transition = Transition(tagNumber: int, stateNumber: int)

  /** One state: its control byte and its outgoing transitions in list order. */
  datatype State = State(control: bv8, transitions: seq<Transition>)

  /** One declared variable; -1 marks a position that has not been defined. */
  datatype Variable = Variable(name: string, start: int, end: int)

  /** A whole .fst2: every sub-graph's states in one flat array. */
  datatype Fst2 = Fst2(
    states: seq<State>,
    tags: seq<Tag>,
    numberOfGraphs: int,
    numberOfStates: int,
    numberOfTags: int,
    initialStates: seq<int>,           // per graph, the absolute number of its initial state
    graphNames: seq<string>,
    numberOfStatesPerGraphs: seq<int>,
    variables: seq<Variable>
  )

  // ------------------------------------------------------------------
  // Control bytes of states
  // ------------------------------------------------------------------

  /** Bit 0 of a state's control byte: the state is initial. */
  const InitialBit: bv8 := 1

  /** Bit 1 of a state's control byte: the state is final. */
  const FinalBit: bv8 := 2

  /** is_initial_state */
  predicate IsInitialState(s: State)
  {
    s.control & InitialBit != 0
  }

  /** is_final_state */
  predicate IsFinalState(s: State)
  {
    s.control & FinalBit != 0
  }

  /** A marking that leaves the two reserved low bits alone. */
  predicate IsMarkingBits(bits: bv8)
  {
    bits & (InitialBit | FinalBit) == 0
  }

  /** Initial and final status depend only on the two lowest bits of the control byte. */
  lemma StatusIsLowTwoBits(s: State, t: State)
    requires s.control & 3 == t.control & 3
    ensures IsInitialState(s) <==> IsInitialState(t)
    ensures IsFinalState(s) <==> IsFinalState(t)
  {
  }

  /** Setting marking bits (as cycle detection does) leaves both statuses unchanged. */
  lemma MarkingKeepsStatus(s: State, bits: bv8)
    requires IsMarkingBits(bits)
    ensures IsInitialState(State(s.control | bits, s.transitions)) <==> IsInitialState(s)
    ensures IsFinalState(State(s.control | bits, s.transitions)) <==> IsFinalState(s)
  {
  }

  // ------------------------------------------------------------------
  // Tags and variables
  // ------------------------------------------------------------------

  /** A $a( or $a) declaration tag. */
  predicate IsDeclaration(t: Tag)
  {
    t.number.VariableStart? || t.number.VariableEnd?
  }

  /** The invariants of one tag that the header documents. */
  predicate ValidTag(t: Tag)
  {
    // the count is the cached length of the list
    && t.numberOfMatchingTokens == |t.matchingTokens|
    // -1 when the tag has no filter; a filter's number stays -1 until the filter compiler runs
    && (t.contentGF.None? ==> t.entryMasterGF == -1)
    && (t.contentGF.Some? ==> t.entryMasterGF >= -1)
    // a filter-only input is replaced by the default "<TOKEN>", never left empty
    && (t.contentGF.Some? ==> |t.input| > 0)
    // an inflected form only appears next to a lemma: <built,build.V>, {built,build.V:K}
    && (t.inflected.Some? ==> t.lemmaText.Some?)
    // a declaration's input is just the variable name, with no lexical parts
    && (IsDeclaration(t) ==>
          |t.input| > 0 && t.inflected.None? && t.lemmaText.None? && t.codes.None? && t.contentGF.None?)
  }

  /** A variable position is either defined or the -1 sentinel. */
  predicate ValidVariable(v: Variable)
  {
    v.start >= -1 && v.end >= -1
  }

  /** The names of the variables of a list. */
  function VariableNames(vs: seq<Variable>): set<string>
  {
    set i | 0 <= i < |vs| :: vs[i].name
  }

  /** The variable names the declaration tags of `tags` introduce. */
  function DeclaredNames(tags: seq<Tag>): set<string>
  {
    set j | 0 <= j < |tags| && IsDeclaration(tags[j]) :: tags[j].input
  }

  /** No two variables of the list share a name. */
  predicate DistinctNames(vs: seq<Variable>)
  {
    forall i, j :: 0 <= i < j < |vs| ==> vs[i].name != vs[j].name
  }

  // ------------------------------------------------------------------
  // Absolute state numbering
  // ------------------------------------------------------------------

  function Sum(s: seq<int>): int
  {
    if |s| == 0 then 0 else Sum(s[..|s| - 1]) + s[|s| - 1]
  }

  /** The graph table is consistent: one entry per graph, counts adding up to the state array. */
  predicate WellFormedGraphs(f: Fst2)
  {
    && f.numberOfGraphs == |f.numberOfStatesPerGraphs|
    && f.numberOfStates == |f.states|
    && (forall g :: 0 <= g < |f.numberOfStatesPerGraphs| ==> f.numberOfStatesPerGraphs[g] >= 0)
    && Sum(f.numberOfStatesPerGraphs) == f.numberOfStates
  }

  /** The absolute number of the first state of graph `g`: the states of all earlier graphs. */
  function GraphOffset(f: Fst2, g: nat): int
    requires g <= |f.numberOfStatesPerGraphs|
  {
    Sum(f.numberOfStatesPerGraphs[..g])
  }

  /** The invariants of a loaded .fst2. */
  predicate Valid(f: Fst2)
  {
    && WellFormedGraphs(f)
    && f.numberOfTags == |f.tags|
    && |f.initialStates| == f.numberOfGraphs
    && |f.graphNames| == f.numberOfGraphs
    && f.numberOfTags <= MaxFst2Tags
    && f.numberOfStates <= MaxFst2States
    // each graph's initial state lies among that graph's own states
    && (forall g :: 0 <= g < f.numberOfGraphs ==>
          GraphOffset(f, g) <= f.initialStates[g] < GraphOffset(f, g) + f.numberOfStatesPerGraphs[g])
    // and carries the initial bit in its control byte
    && (forall g :: 0 <= g < f.numberOfGraphs ==>
          0 <= f.initialStates[g] < |f.states| && IsInitialState(f.states[f.initialStates[g]]))
    // transitions name existing tags and existing (absolute) states
    && (forall n, t :: 0 <= n < |f.states| && t in f.states[n].transitions ==>
          0 <= t.tagNumber < f.numberOfTags && 0 <= t.stateNumber < f.numberOfStates)
    && (forall i :: 0 <= i < |f.tags| ==> ValidTag(f.tags[i]))
    // the variable list is initialised from the declaration tags
    && (forall i :: 0 <= i < |f.variables| ==> ValidVariable(f.variables[i]))
    && VariableNames(f.variables) == DeclaredNames(f.tags)
  }

  /**
   * What every consumer of a valid fst2 may rely on for a tag: the cached
   * count, the -1 of an absent filter, the size bounds and, for a
   * declaration, a bare variable name that the variable list holds.
   */
  lemma ValidTagFacts(f: Fst2, i: nat)
    requires Valid(f) && i < |f.tags|
    ensures f.tags[i].numberOfMatchingTokens == |f.tags[i].matchingTokens|
    ensures f.tags[i].contentGF.None? ==> f.tags[i].entryMasterGF == -1
    ensures f.numberOfTags <= MaxFst2Tags && f.numberOfStates <= MaxFst2States
    ensures IsDeclaration(f.tags[i]) ==>
              |f.tags[i].input| > 0 && f.tags[i].input in VariableNames(f.variables)
  {
    if IsDeclaration(f.tags[i]) {
      assert f.tags[i].input in DeclaredNames(f.tags);
    }
  }
}
