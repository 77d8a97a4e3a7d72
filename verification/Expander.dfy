/** internal/config/expander.go: macro expansion of `include` steps. */
module Expander {
  // An include is replaced by a namespaced copy of its template; template steps without needs inherit
  // the needs of the include, and whoever needed the include needs the leaves of the template instead.

  import opened Steps

  /** `template` stands for the file together with the variables substituted into it;
      it is empty when the step names none. */
  datatype SourceStep =
    | Plain(name: Name, needs: seq<Name>, kind: string)
    | Include(name: Name, needs: seq<Name>, template: string)

  /** What reading and parsing a template file yields. */
  datatype Loaded = Unreadable | Unparsable | Parsed(steps: seq<Step>)
  type Library = string -> Loaded

  datatype ExpandError =
    | MissingTemplatePath(step: Name)
    | ReadFailed(step: Name)
    | ParseFailed(step: Name)

  function Qualified(inc: Name, inner: Name): Name { inc + "." + inner }

  function QualifiedAll(inc: Name, needs: seq<Name>): seq<Name> {
    seq(|needs|, k requires 0 <= k < |needs| => Qualified(inc, needs[k]))
  }

  // ---------------------------------------------------------------- specification

  /** Names expanded so far, each with the names of its template's leaves. */
  type Leaves = map<Name, seq<Name>>

  function Relink(needs: seq<Name>, leaves: Leaves): seq<Name> {
    if needs == [] then []
    else
      var d := needs[|needs| - 1];
      Relink(needs[..|needs| - 1], leaves) + if d in leaves then leaves[d] else [d]
  }

  ghost function Needed(template: seq<Step>): (names: set<Name>) {
    set s, d | s in template && d in s.needs :: d
  }

  ghost function LeafNames(inc: Name, template: seq<Step>, k: nat): seq<Name>
    requires k <= |template|
  {
    if k == 0 then []
    else
      LeafNames(inc, template, k - 1) +
      if template[k - 1].name in Needed(template) then [] else [Qualified(inc, template[k - 1].name)]
  }

  function Instance(inc: SourceStep, t: Step, leaves: Leaves): Step {
    Step(Qualified(inc.name, t.name), t.kind,
         if |t.needs| == 0 then Relink(inc.needs, leaves) else QualifiedAll(inc.name, t.needs))
  }

  function Instances(inc: SourceStep, template: seq<Step>, leaves: Leaves): seq<Step> {
    seq(|template|, k requires 0 <= k < |template| => Instance(inc, template[k], leaves))
  }

  predicate Loads(item: SourceStep, lib: Library) {
    item.Include? ==> item.template != "" && lib(item.template).Parsed?
  }

  ghost predicate AllLoadBelow(src: seq<SourceStep>, lib: Library, i: nat)
    requires i <= |src|
  {
    forall j :: 0 <= j < i ==> Loads(src[j], lib)
  }

  ghost predicate AllLoad(src: seq<SourceStep>, lib: Library) {
    AllLoadBelow(src, lib, |src|)
  }

  function TemplateOf(item: SourceStep, lib: Library): seq<Step> {
    if item.Include? && lib(item.template).Parsed? then lib(item.template).steps else []
  }

  ghost function LeavesOf(item: SourceStep, lib: Library): seq<Name> {
    LeafNames(item.name, TemplateOf(item, lib), |TemplateOf(item, lib)|)
  }

  /** `includeLeaves` after the first `i` items. */
  ghost function LeavesUpTo(src: seq<SourceStep>, lib: Library, i: nat): Leaves
    requires i <= |src|
  {
    if i == 0 then map[]
    else
      var before := LeavesUpTo(src, lib, i - 1);
      if src[i - 1].Include? then before[src[i - 1].name := LeavesOf(src[i - 1], lib)] else before
  }

  /** What item `i` is replaced by. */
  ghost function Piece(src: seq<SourceStep>, lib: Library, i: nat): seq<Step>
    requires i < |src|
  {
    var leaves := LeavesUpTo(src, lib, i);
    if src[i].Plain? then [Step(src[i].name, src[i].kind, Relink(src[i].needs, leaves))]
    else Instances(src[i], TemplateOf(src[i], lib), leaves)
  }

  ghost function Pieces(src: seq<SourceStep>, lib: Library): (pieces: seq<seq<Step>>)
    ensures |pieces| == |src|
    ensures forall i {:trigger pieces[i]} :: 0 <= i < |src| ==> pieces[i] == Piece(src, lib, i)
  {
    seq(|src|, i requires 0 <= i < |src| => Piece(src, lib, i))
  }

  ghost function Flatten(pieces: seq<seq<Step>>, k: nat): seq<Step>
    requires k <= |pieces|
  {
    if k == 0 then [] else Flatten(pieces, k - 1) + pieces[k - 1]
  }

  ghost function FlattenAll(pieces: seq<seq<Step>>): seq<Step> { Flatten(pieces, |pieces|) }

  ghost function Expansion(src: seq<SourceStep>, lib: Library): seq<Step> {
    FlattenAll(Pieces(src, lib))
  }

  /** `e` is what is wrong with loading this include. */
  ghost predicate Faulty(item: SourceStep, lib: Library, e: ExpandError) {
    && item.Include? && e.step == item.name
    && (e.MissingTemplatePath? <==> item.template == "")
    && (e.ReadFailed? ==> lib(item.template).Unreadable?)
    && (e.ParseFailed? ==> lib(item.template).Unparsable?)
  }

  ghost predicate ReportsFirstFault(src: seq<SourceStep>, lib: Library, e: ExpandError) {
    exists i: nat :: i < |src| && AllLoadBelow(src, lib, i) && Faulty(src[i], lib, e)
  }

  lemma FaultyDoesNotLoad(src: seq<SourceStep>, lib: Library, e: ExpandError)
    requires ReportsFirstFault(src, lib, e)
    ensures !AllLoad(src, lib)
  {
    var i: nat :| i < |src| && AllLoadBelow(src, lib, i) && Faulty(src[i], lib, e);
    assert !Loads(src[i], lib);
  }

  /** The state of the expander after the first `i` items. */
  ghost predicate Progress(src: seq<SourceStep>, lib: Library, i: nat, expanded: seq<Step>, includeLeaves: Leaves) {
    && i <= |src| && AllLoadBelow(src, lib, i)
    && includeLeaves == LeavesUpTo(src, lib, i) && expanded == Flatten(Pieces(src, lib), i)
  }

  lemma ProgressMore(src: seq<SourceStep>, lib: Library, i: nat, expanded: seq<Step>, includeLeaves: Leaves)
    requires Progress(src, lib, i, expanded, includeLeaves) && i < |src| && Loads(src[i], lib)
    ensures Progress(src, lib, i + 1, expanded + Piece(src, lib, i), LeavesUpTo(src, lib, i + 1))
  {
    assert Pieces(src, lib)[i] == Piece(src, lib, i);
  }

  // ---------------------------------------------------------------- the expander

  method RelinkNeeds(needs: seq<Name>, leaves: Leaves) returns (newNeeds: seq<Name>)
    ensures newNeeds == Relink(needs, leaves)
  {
    newNeeds := [];
    for k := 0 to |needs|
      invariant newNeeds == Relink(needs[..k], leaves)
    {
      assert needs[..k + 1][..k] == needs[..k];
      if needs[k] in leaves {
        newNeeds := newNeeds + leaves[needs[k]];
      } else {
        newNeeds := newNeeds + [needs[k]];
      }
    }
    assert needs[..|needs|] == needs;
  }

  method QualifyNeeds(inc: Name, needs: seq<Name>) returns (newNeeds: seq<Name>)
    ensures newNeeds == QualifiedAll(inc, needs)
  {
    newNeeds := [];
    for k := 0 to |needs|
      invariant newNeeds == QualifiedAll(inc, needs[..k])
    {
      newNeeds := newNeeds + [Qualified(inc, needs[k])];
    }
    assert needs[..|needs|] == needs;
  }

  lemma NeededSnoc(template: seq<Step>, k: nat)
    requires k < |template|
    ensures Needed(template[..k + 1]) == Needed(template[..k]) + set d | d in template[k].needs
  {
    assert template[..k + 1] == template[..k] + [template[k]];
  }

  method DependedOn(template: seq<Step>) returns (names: set<Name>)
    ensures names == Needed(template)
  {
    names := {};
    for k := 0 to |template|
      invariant names == Needed(template[..k])
    {
      var needs := template[k].needs;
      ghost var before := names;
      for j := 0 to |needs|
        invariant names == before + set d | d in needs[..j]
      {
        assert needs[..j + 1] == needs[..j] + [needs[j]];
        names := names + {needs[j]};
      }
      assert needs[..|needs|] == needs;
      NeededSnoc(template, k);
    }
    assert template[..|template|] == template;
  }

  lemma InstancesSnoc(inc: SourceStep, template: seq<Step>, k: nat, leaves: Leaves)
    requires k < |template|
    ensures Instances(inc, template[..k + 1], leaves) == Instances(inc, template[..k], leaves) + [Instance(inc, template[k], leaves)]
  {
  }

  lemma LeavesAreUnneeded(inc: Name, template: seq<Step>, n: Name)
    ensures n in LeafNames(inc, template, |template|) <==>
      exists k :: 0 <= k < |template| && n == inc + "." + template[k].name && forall m :: 0 <= m < |template| ==>
        template[k].name !in template[m].needs
  {
    forall k | 0 <= k < |template|
      ensures template[k].name in Needed(template) <==> exists m :: 0 <= m < |template| && template[k].name in template[m].needs
    {
      if m :| 0 <= m < |template| && template[k].name in template[m].needs { assert template[m] in template; }
    }
    LeafNamesUpTo(inc, template, |template|, n);
  }

  lemma {:induction false} LeafNamesUpTo(inc: Name, template: seq<Step>, top: nat, n: Name)
    requires top <= |template|
    ensures n in LeafNames(inc, template, top) <==>
      exists k :: 0 <= k < top && n == inc + "." + template[k].name && template[k].name !in Needed(template)
  {
    if top > 0 { LeafNamesUpTo(inc, template, top - 1, n); }
  }

  /** Lines 106-150 for one include: a copy of each template step, of the same type, under the name and
      with the needs of this include; the leaves are those that no step of the template needs. */
  method ExpandInclude(inc: SourceStep, template: seq<Step>, includeLeaves: Leaves)
    returns (piece: seq<Step>, leaves: seq<Name>)
    ensures piece == Instances(inc, template, includeLeaves)
    ensures leaves == LeafNames(inc.name, template, |template|)
    ensures |piece| == |template| && forall k :: 0 <= k < |piece| ==>
      piece[k].kind == template[k].kind && piece[k].name == inc.name + "." + template[k].name
    ensures forall k :: 0 <= k < |piece| && template[k].needs != [] ==>
      && |piece[k].needs| == |template[k].needs|
      && forall m :: 0 <= m < |template[k].needs| ==> piece[k].needs[m] == inc.name + "." + template[k].needs[m]
    ensures forall n :: n in leaves <==>
      exists k :: 0 <= k < |template| && n == inc.name + "." + template[k].name && forall m :: 0 <= m < |template| ==>
        template[k].name !in template[m].needs
  {
    forall n {
      LeavesAreUnneeded(inc.name, template, n);
    }
    var isDependedOn := DependedOn(template);
    piece, leaves := [], [];
    for k := 0 to |template|
      invariant piece == Instances(inc, template[..k], includeLeaves)
      invariant leaves == LeafNames(inc.name, template, k)
    {
      var t := template[k];
      var newName := Qualified(inc.name, t.name);
      if t.name !in isDependedOn {
        leaves := leaves + [newName];
      }
      var newNeeds: seq<Name>;
      if |t.needs| == 0 {
        newNeeds := RelinkNeeds(inc.needs, includeLeaves);
      } else {
        newNeeds := QualifyNeeds(inc.name, t.needs);
      }
      InstancesSnoc(inc, template, k, includeLeaves);
      piece := piece + [Step(newName, t.kind, newNeeds)];
    }
    assert template[..|template|] == template;
  }

  /** Lines 67-100: find, read and parse the template of an include. */
  method LoadTemplate(item: SourceStep, lib: Library) returns (r: Result<seq<Step>, ExpandError>)
    requires item.Include?
    ensures r.Ok? <==> Loads(item, lib)
    ensures r.Ok? ==> r.value == TemplateOf(item, lib)
    ensures r.Err? ==> Faulty(item, lib, r.error)
  {
    if item.template == "" { return Err(MissingTemplatePath(item.name)); }
    match lib(item.template)
    case Unreadable => return Err(ReadFailed(item.name));
    case Unparsable => return Err(ParseFailed(item.name));
    case Parsed(steps) => return Ok(steps);
  }

  /** One iteration of the loop over the phase. */
  method ExpandItem(src: seq<SourceStep>, lib: Library, i: nat, includeLeaves: Leaves)
    returns (r: Result<(seq<Step>, Leaves), ExpandError>)
    requires i < |src| && includeLeaves == LeavesUpTo(src, lib, i)
    ensures r.Ok? <==> Loads(src[i], lib)
    ensures r.Ok? ==> r.value == (Piece(src, lib, i), LeavesUpTo(src, lib, i + 1))
    ensures r.Err? ==> Faulty(src[i], lib, r.error)
  {
    var item := src[i];
    if item.Plain? {
      var newNeeds := RelinkNeeds(item.needs, includeLeaves);
      return Ok(([Step(item.name, item.kind, newNeeds)], includeLeaves));
    }
    var loaded := LoadTemplate(item, lib);
    if loaded.Err? { return Err(loaded.error); }
    var piece, leaves := ExpandInclude(item, loaded.value, includeLeaves);
    return Ok((piece, includeLeaves[item.name := leaves]));
  }

  /** What an item has been replaced by: itself, or one step for each of its template, of the same type. */
  ghost predicate ReplacedBy(item: SourceStep, lib: Library, block: seq<Step>) {
    if item.Plain? then |block| == 1 && block[0].name == item.name && block[0].kind == item.kind
    else
      && lib(item.template).Parsed? && |block| == |lib(item.template).steps|
      && forall k :: 0 <= k < |block| ==>
           block[k].kind == lib(item.template).steps[k].kind && block[k].name == item.name + "." + lib(item.template).steps[k].name
  }

  lemma PieceReplaces(src: seq<SourceStep>, lib: Library, i: nat)
    requires i < |src| && Loads(src[i], lib)
    ensures ReplacedBy(src[i], lib, Piece(src, lib, i))
  {
  }

  /** Where in the flattened sequence each piece begins. */
  ghost predicate Cuts(pieces: seq<seq<Step>>, k: nat, result: seq<Step>, starts: seq<nat>) {
    && k <= |pieces| && |starts| == k + 1 && starts[0] == 0 && starts[k] == |result|
    && forall j {:trigger pieces[j]} :: 0 <= j < k ==> CutOut(result, starts, j, pieces[j])
  }

  ghost predicate CutOut(result: seq<Step>, starts: seq<nat>, j: nat, piece: seq<Step>) {
    j + 1 < |starts| && starts[j] <= starts[j + 1] <= |result| && result[starts[j]..starts[j + 1]] == piece
  }

  lemma CutsMore(pieces: seq<seq<Step>>, k: nat, result: seq<Step>, starts: seq<nat>)
    requires k < |pieces| && Cuts(pieces, k, result, starts)
    ensures Cuts(pieces, k + 1, result + pieces[k], starts + [|result + pieces[k]|])
  {
    var more, longer := starts + [|result + pieces[k]|], result + pieces[k];
    forall j | 0 <= j < k + 1
      ensures CutOut(longer, more, j, pieces[j])
    {
      if j < k {
        assert CutOut(result, starts, j, pieces[j]);
        assert longer[more[j]..more[j + 1]] == result[starts[j]..starts[j + 1]];
      } else {
        assert longer[more[j]..more[j + 1]] == pieces[k];
      }
    }
  }

  lemma {:induction false} FlattenCuts(pieces: seq<seq<Step>>, k: nat) returns (starts: seq<nat>)
    requires k <= |pieces|
    ensures Cuts(pieces, k, Flatten(pieces, k), starts)
  {
    if k == 0 {
      starts := [0];
    } else {
      var before := FlattenCuts(pieces, k - 1);
      CutsMore(pieces, k - 1, Flatten(pieces, k - 1), before);
      starts := before + [|Flatten(pieces, k)|];
    }
  }

  /** The result is cut into the replacements of the items, in their order. */
  ghost predicate Blocks(src: seq<SourceStep>, lib: Library, result: seq<Step>, starts: seq<nat>) {
    && |starts| == |src| + 1 && starts[0] == 0 && starts[|src|] == |result|
    && forall j :: 0 <= j < |src| ==> BlockAt(src[j], lib, result, starts, j)
  }

  ghost predicate BlockAt(item: SourceStep, lib: Library, result: seq<Step>, starts: seq<nat>, j: nat) {
    j + 1 < |starts| && starts[j] <= starts[j + 1] <= |result| && ReplacedBy(item, lib, result[starts[j]..starts[j + 1]])
  }

  lemma ExpansionBlocks(src: seq<SourceStep>, lib: Library) returns (starts: seq<nat>)
    requires AllLoad(src, lib)
    ensures Blocks(src, lib, Expansion(src, lib), starts)
  {
    var pieces := Pieces(src, lib);
    starts := FlattenCuts(pieces, |src|);
    forall j | 0 <= j < |src|
      ensures BlockAt(src[j], lib, Expansion(src, lib), starts, j)
    {
      assert CutOut(Expansion(src, lib), starts, j, pieces[j]);
      PieceReplaces(src, lib, j);
    }
  }

  lemma StoppedByFault(src: seq<SourceStep>, lib: Library, i: nat, e: ExpandError)
    requires i < |src| && AllLoadBelow(src, lib, i) && Faulty(src[i], lib, e)
    ensures ReportsFirstFault(src, lib, e) && !AllLoad(src, lib)
    ensures !(forall i :: 0 <= i < |src| && src[i].Include? ==> src[i].template != "" && lib(src[i].template).Parsed?)
  {
    FaultyDoesNotLoad(src, lib, e);
    AllLoadMeans(src, lib);
  }

  lemma AllLoadMeans(src: seq<SourceStep>, lib: Library)
    ensures AllLoad(src, lib) <==>
      forall i :: 0 <= i < |src| && src[i].Include? ==> src[i].template != "" && lib(src[i].template).Parsed?
  {
  }

  /** Expansion of one phase; it fails exactly on the first include whose template cannot be loaded. */
  method ExpandStepArray(src: seq<SourceStep>, lib: Library) returns (r: Result<seq<Step>, ExpandError>, ghost starts: seq<nat>)
    ensures r.Ok? <==> forall i :: 0 <= i < |src| && src[i].Include? ==> src[i].template != "" && lib(src[i].template).Parsed?
    ensures r.Ok? ==> AllLoad(src, lib) && r.value == Expansion(src, lib)
    ensures r.Ok? ==> Blocks(src, lib, r.value, starts)
    ensures r.Err? ==> !AllLoad(src, lib) && ReportsFirstFault(src, lib, r.error)
  {
    var expanded: seq<Step> := [];
    var includeLeaves: Leaves := map[];
    starts := [];
    for i := 0 to |src|
      invariant Progress(src, lib, i, expanded, includeLeaves)
    {
      var step := ExpandItem(src, lib, i, includeLeaves);
      if step.Err? {
        StoppedByFault(src, lib, i, step.error);
        return Err(step.error), starts;
      }
      ProgressMore(src, lib, i, expanded, includeLeaves);
      expanded := expanded + step.value.0;
      includeLeaves := step.value.1;
    }
    AllLoadMeans(src, lib);
    starts := ExpansionBlocks(src, lib);
    return Ok(expanded), starts;
  }
}
