/**
 * The variable list of an fst2 (struct variable_list of Fst2.h): built
 * from the $a( and $a) declaration tags with both positions undefined
 * (-1), and searched by name as get_variable does.
 */
module Fst2Variables {
  import opened Wrappers
  import opened Fst2Model

  lemma NamesAppend(vs: seq<Variable>, v: Variable)
    ensures VariableNames(vs + [v]) == VariableNames(vs) + {v.name}
  {
    var w := vs + [v];
    assert forall i :: 0 <= i < |vs| ==> w[i] == vs[i];
    assert w[|vs|] == v;
  }

  lemma DeclaredNamesSnoc(tags: seq<Tag>)
    requires |tags| > 0
    ensures var t := tags[|tags| - 1];
            DeclaredNames(tags) ==
              DeclaredNames(tags[..|tags| - 1]) + (if IsDeclaration(t) then {t.input} else {})
  {
    var init := tags[..|tags| - 1];
    assert forall j :: 0 <= j < |init| ==> init[j] == tags[j];
  }

  /**
   * The variable list of a freshly loaded fst2: one entry per declared
   * name, in order of first declaration, with start and end at -1.
   */
  function DeclaredVariables(tags: seq<Tag>): (vs: seq<Variable>)
    ensures VariableNames(vs) == DeclaredNames(tags)
    ensures DistinctNames(vs)
    ensures forall i :: 0 <= i < |vs| ==> vs[i].start == -1 && vs[i].end == -1
    decreases |tags|
  {
    if |tags| == 0 then
      []
    else
      var vs := DeclaredVariables(tags[..|tags| - 1]);
      var t := tags[|tags| - 1];
      DeclaredNamesSnoc(tags);
      if IsDeclaration(t) && t.input !in VariableNames(vs) then
        NamesAppend(vs, Variable(t.input, -1, -1));
        vs + [Variable(t.input, -1, -1)]
      else
        vs
  }

  /** get_variable: the first variable of the list with the given name, if any. */
  function GetVariable(name: string, vs: seq<Variable>): (r: Option<Variable>)
    ensures r.None? <==> name !in VariableNames(vs)
    ensures r.Some? ==>
              exists i :: 0 <= i < |vs| && vs[i] == r.value && vs[i].name == name &&
                          forall j :: 0 <= j < i ==> vs[j].name != name
  {
    if |vs| == 0 then
      None
    else if vs[0].name == name then
      Some(vs[0])
    else
      var r := GetVariable(name, vs[1..]);
      assert VariableNames(vs) == {vs[0].name} + VariableNames(vs[1..]) by {
        assert forall i :: 0 < i < |vs| ==> vs[i] == vs[1..][i - 1];
      }
      if r.Some? then
        var i :| 0 <= i < |vs[1..]| && vs[1..][i] == r.value && vs[1..][i].name == name &&
                 forall j :: 0 <= j < i ==> vs[1..][j].name != name;
        assert vs[i + 1] == r.value;
        r
      else
        r
  }

  /** In a list with distinct names, the variable found is the only one with that name. */
  lemma GetVariableUnique(name: string, vs: seq<Variable>, k: nat)
    requires DistinctNames(vs) && k < |vs| && vs[k].name == name
    ensures GetVariable(name, vs) == Some(vs[k])
  {
    assert name in VariableNames(vs);
  }

  /** The list built from the tags makes any valid fst2 valid again. */
  lemma DeclaredVariablesValid(f: Fst2)
    requires Valid(f)
    ensures Valid(f.(variables := DeclaredVariables(f.tags)))
  {
    var f' := f.(variables := DeclaredVariables(f.tags));
    assert forall g :: 0 <= g <= f.numberOfGraphs ==> GraphOffset(f', g) == GraphOffset(f, g);
  }

  /** Every declaration tag of a valid fst2 names a variable that get_variable finds. */
  lemma DeclarationHasVariable(f: Fst2, j: nat)
    requires Valid(f) && j < |f.tags| && IsDeclaration(f.tags[j])
    ensures GetVariable(f.tags[j].input, f.variables).Some?
    ensures GetVariable(f.tags[j].input, f.variables).value.name == f.tags[j].input
  {
    assert f.tags[j].input in DeclaredNames(f.tags);
  }

  /** The tags of "$a(" and "$a)" declare one variable "a", both of its positions undefined. */
  lemma DeclarationExample()
    ensures var open := Tag(VariableStart, 0, "a", "", None, None, None, [], 0, -1, None, -1);
            var close := open.(number := VariableEnd);
            DeclaredVariables([open, close]) == [Variable("a", -1, -1)]
  {
    var open := Tag(VariableStart, 0, "a", "", None, None, None, [], 0, -1, None, -1);
    var close := open.(number := VariableEnd);
    var tags := [open, close];
    assert tags[..1] == [open] && tags[..1][..0] == [];
    assert DeclaredVariables([]) == [];
    assert VariableNames([]) == {};
    assert DeclaredVariables([open]) == [Variable("a", -1, -1)];
    assert "a" in VariableNames([Variable("a", -1, -1)]);
  }
}
