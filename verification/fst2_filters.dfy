/**
 * The morphological-filter numbers of the tags (entryMasterGF in Fst2.h).
 * They are -1 until the filters are compiled; the compiler numbers filters
 * globally, so tags with identical filters share one number. The numbering
 * itself belongs to the filter compiler and is a parameter here.
 */
module Fst2Filters {
  import opened Wrappers
  import opened Fst2Model

  /**
   * The compiler's numbering is global, one number per distinct filter:
   * two different filters of the tags never share a number.
   */
  predicate KeepsFiltersApart(tags: seq<Tag>, number: string -> nat)
  {
    forall i, j :: 0 <= i < |tags| && 0 <= j < |tags| &&
                   tags[i].contentGF.Some? && tags[j].contentGF.Some? &&
                   tags[i].contentGF != tags[j].contentGF ==>
      number(tags[i].contentGF.value) != number(tags[j].contentGF.value)
  }

  /** Stores in each tag the number `number` gives to its filter text, -1 for a tag without a filter. */
  function NumberFilters(tags: seq<Tag>, number: string -> nat): (r: seq<Tag>)
    requires KeepsFiltersApart(tags, number)
    ensures |r| == |tags|
    ensures forall i :: 0 <= i < |r| ==> r[i] == tags[i].(entryMasterGF := r[i].entryMasterGF)
    ensures forall i :: 0 <= i < |r| ==> (r[i].entryMasterGF == -1 <==> tags[i].contentGF.None?)
    ensures forall i, j :: 0 <= i < |r| && 0 <= j < |r| && tags[i].contentGF.Some? && tags[j].contentGF.Some? ==>
              (r[i].entryMasterGF == r[j].entryMasterGF <==> tags[i].contentGF == tags[j].contentGF)
    ensures forall i :: 0 <= i < |r| && ValidTag(tags[i]) ==> ValidTag(r[i])
  {
    seq(|tags|, i requires 0 <= i < |tags| =>
      tags[i].(entryMasterGF := match tags[i].contentGF case Some(gf) => number(gf) case None => -1))
  }

  /** Numbering the filters of a valid fst2 keeps it valid. */
  lemma NumberFiltersValid(f: Fst2, number: string -> nat)
    requires Valid(f) && KeepsFiltersApart(f.tags, number)
    ensures Valid(f.(tags := NumberFilters(f.tags, number)))
  {
    var tags' := NumberFilters(f.tags, number);
    var f' := f.(tags := tags');
    assert forall g :: 0 <= g <= f.numberOfGraphs ==> GraphOffset(f', g) == GraphOffset(f, g);
    assert forall j :: 0 <= j < |tags'| ==> IsDeclaration(tags'[j]) == IsDeclaration(f.tags[j]);
    assert forall j :: 0 <= j < |tags'| ==> tags'[j].input == f.tags[j].input;
    assert DeclaredNames(tags') == DeclaredNames(f.tags);
  }

  /** A tag with the filter "^in" (as in "<V:P><<^in>>/[V]"), its number not yet assigned. */
  function FilterTag(input: string, output: string): Tag
  {
    Tag(OtherTag(0), 0, input, output, None, None, None, [], 0, -1, Some("^in"), -1)
  }

  /** The two tags "<A><<^in>>" and "<N><<^in>>/NOUN". */
  function SharedFilterTags(): seq<Tag>
  {
    [FilterTag("<A>", ""), FilterTag("<N>", "NOUN")]
  }

  /** One graph of one state, initial and final, with a loop through each tag. */
  function SharedFilterFst2(): Fst2
  {
    Fst2([State(3, [Transition(0, 0), Transition(1, 0)])], SharedFilterTags(), 1, 1, 2, [0], ["main"], [1], [])
  }

  lemma SharedFilterFst2Valid()
    ensures Valid(SharedFilterFst2())
  {
    var f := SharedFilterFst2();
    assert f.numberOfStatesPerGraphs[..0] == [] && f.numberOfStatesPerGraphs[..1] == [1];
    assert Sum([1]) == 1 by { assert [1][..0] == []; }
    assert DeclaredNames(f.tags) == {};
    assert VariableNames([]) == {};
  }

  /**
   * "<A><<^in>>" and "<N><<^in>>/NOUN" in one single-state fst2: valid with
   * both filter numbers unresolved, and still valid once both tags share
   * the number of their common filter.
   */
  lemma SharedFilterExample(number: string -> nat)
    ensures var f := SharedFilterFst2();
            && Valid(f)
            && KeepsFiltersApart(f.tags, number)
            && Valid(f.(tags := NumberFilters(f.tags, number)))
            && NumberFilters(f.tags, number)[0].entryMasterGF == NumberFilters(f.tags, number)[1].entryMasterGF
  {
    var f := SharedFilterFst2();
    assert KeepsFiltersApart(f.tags, number);
    SharedFilterFst2Valid();
    NumberFiltersValid(f, number);
  }
}
