/** What expansion means for the order of a phase, and for whether it validates. */
module ExpansionOrder {
  // Both are read off the source phase and its templates; an empty template excuses its item.

  import opened Steps
  import opened Expander

  // ---------------------------------------------------------------- the source graph

  /** The phase as written: one node per item, includes unexpanded. */
  ghost function Outline(src: seq<SourceStep>): (steps: seq<Step>)
    ensures |steps| == |src|
    ensures forall i :: 0 <= i < |src| ==> steps[i].name == src[i].name && steps[i].needs == src[i].needs
  {
    seq(|src|, i requires 0 <= i < |src| => Step(src[i].name, "", src[i].needs))
  }

  /** A need is understood when it names a plain step of the phase, or an include declared above. */
  ghost predicate Resolvable(src: seq<SourceStep>, i: nat, d: Name) {
    exists j: nat :: j < |src| && src[j].name == d && (src[j].Plain? || j < i)
  }

  /** An include of an empty template is expanded to nothing. */
  ghost predicate Live(src: seq<SourceStep>, lib: Library, i: nat)
    requires i < |src|
  {
    src[i].Plain? || TemplateOf(src[i], lib) != []
  }

  /** The outline in which an item that is expanded to nothing needs nothing: it is a dead end. */
  ghost function Trimmed(src: seq<SourceStep>, lib: Library): (steps: seq<Step>)
    ensures |steps| == |src|
    ensures forall i {:trigger steps[i]} :: 0 <= i < |src| ==>
      steps[i].name == src[i].name && steps[i].needs == if Live(src, lib, i) then src[i].needs else []
  {
    seq(|src|, i requires 0 <= i < |src| => Step(src[i].name, "", if Live(src, lib, i) then src[i].needs else []))
  }

  /** Every need of every item that is expanded to something is understood. */
  ghost predicate AllResolvable(src: seq<SourceStep>, lib: Library) {
    forall i: nat, d :: i < |src| && Live(src, lib, i) && d in src[i].needs ==> Resolvable(src, i, d)
  }

  ghost predicate NonEmptyTemplates(src: seq<SourceStep>, lib: Library) {
    forall i: nat :: i < |src| ==> Live(src, lib, i)
  }

  ghost predicate TemplateAccepted(src: seq<SourceStep>, lib: Library, i: nat)
    requires i < |src|
  {
    src[i].Include? ==> Accepted(TemplateOf(src[i], lib))
  }

  ghost predicate TemplatesAccepted(src: seq<SourceStep>, lib: Library) {
    forall i: nat :: i < |src| ==> TemplateAccepted(src, lib, i)
  }

  /** `n` is a step that item `i` was expanded to. */
  ghost predicate InPiece(src: seq<SourceStep>, lib: Library, i: nat, n: Name)
    requires i < |src|
  {
    Declared(Piece(src, lib, i), n)
  }

  /** A well-formed phase whose needs resolve; its source graph may still be cyclic. */
  ghost predicate Linked(src: seq<SourceStep>, lib: Library) {
    DistinctNames(Outline(src)) && AllResolvable(src, lib) && TemplatesAccepted(src, lib)
  }

  /** Everything the ordering theorem assumes of a phase. */
  ghost predicate Sound(src: seq<SourceStep>, lib: Library) {
    Linked(src, lib) && NoCollision(src, lib)
  }

  /** Item `i` is expanded to a step of this name: a plain item to its own, an include to the prefixed
      names of its template. */
  ghost predicate EmitsAt(src: seq<SourceStep>, lib: Library, i: nat, n: Name)
    requires i < |src|
  {
    if src[i].Plain? then n == src[i].name
    else exists t :: t in TemplateOf(src[i], lib) && n == Qualified(src[i].name, t.name)
  }

  /** No template uses a name twice, and no two items are expanded to steps of the same name. */
  ghost predicate NoCollision(src: seq<SourceStep>, lib: Library) {
    && (forall i: nat :: i < |src| && src[i].Include? ==> DistinctNames(TemplateOf(src[i], lib)))
    && forall i: nat, j: nat, n :: i < j < |src| && EmitsAt(src, lib, i, n) ==> !EmitsAt(src, lib, j, n)
  }

  // ---------------------------------------------------------------- templates

  ghost function Above(t: seq<Step>, n: Name): (names: set<Name>) {
    set s | s in t && Reaches(t, s.name, n) :: s.name
  }

  ghost function Below(t: seq<Step>, n: Name): (names: set<Name>) {
    set s | s in t && Reaches(t, n, s.name) :: s.name
  }

  lemma {:induction false} EdgeFrom(t: seq<Step>, s: Step, d: Name)
    requires s in t && d in s.needs
    ensures Edge(t, s.name, d) && Reaches(t, s.name, d)
  {
    EdgeReaches(t, s.name, d);
  }

  /** Following needs downwards in an accepted graph ends at a step without needs. */
  lemma {:induction false} DescendToEntry(t: seq<Step>, s: Step) returns (e: Step)
    requires NeedsKnown(t) && Acyclic(t) && s in t
    ensures e in t && e.needs == []
    ensures e == s || Reaches(t, s.name, e.name)
    decreases Below(t, s.name)
  {
    if s.needs == [] {
      e := s;
    } else {
      var d := s.needs[0];
      assert d in s.needs;
      assert Declared(t, d);
      var k :| 0 <= k < |t| && t[k].name == d;
      EdgeFrom(t, s, d);
      assert d in Below(t, s.name) && d !in Below(t, d);
      forall n | n in Below(t, d)
        ensures n in Below(t, s.name)
      {
        var m :| m in t && m.name == n;
        ReachesTrans(t, s.name, d, n);
      }
      e := DescendToEntry(t, t[k]);
      if e != t[k] { ReachesTrans(t, s.name, d, e.name); }
    }
  }

  /** Following dependents upwards ends at a leaf, a step nobody in the template needs. */
  lemma {:induction false} AscendToLeaf(t: seq<Step>, s: Step) returns (l: Step)
    requires Acyclic(t) && s in t
    ensures l in t && l.name !in Needed(t)
    ensures l == s || Reaches(t, l.name, s.name)
    decreases Above(t, s.name)
  {
    if s.name !in Needed(t) {
      l := s;
    } else {
      var u :| u in t && s.name in u.needs;
      EdgeFrom(t, u, s.name);
      assert u.name in Above(t, s.name) && u.name !in Above(t, u.name);
      forall n | n in Above(t, u.name)
        ensures n in Above(t, s.name)
      {
        var m :| m in t && m.name == n;
        ReachesTrans(t, n, u.name, s.name);
      }
      l := AscendToLeaf(t, u);
      if l != u { ReachesTrans(t, l.name, u.name, s.name); }
    }
  }

  // ---------------------------------------------------------------- names

  lemma {:induction false} QualifiedInjective(inc: Name, a: Name, b: Name)
    requires Qualified(inc, a) == Qualified(inc, b)
    ensures a == b
  {
    assert Qualified(inc, a)[|inc| + 1..] == a;
    assert Qualified(inc, b)[|inc| + 1..] == b;
  }

  lemma {:induction false} RelinkMembers(needs: seq<Name>, leaves: Leaves, x: Name)
    ensures x in Relink(needs, leaves) <==>
      exists d :: d in needs && if d in leaves then x in leaves[d] else x == d
  {
    if needs != [] {
      RelinkMembers(needs[..|needs| - 1], leaves, x);
      assert needs == needs[..|needs| - 1] + [needs[|needs| - 1]];
    }
  }

  lemma LeafMembers(inc: Name, t: seq<Step>, k: nat, x: Name)
    requires k <= |t|
    ensures x in LeafNames(inc, t, k) <==>
      exists m :: 0 <= m < k && t[m].name !in Needed(t) && x == Qualified(inc, t[m].name)
  {
  }

  lemma LeavesKeys(src: seq<SourceStep>, lib: Library, i: nat, d: Name)
    requires i <= |src|
    ensures d in LeavesUpTo(src, lib, i) <==> exists j :: 0 <= j < i && src[j].Include? && src[j].name == d
  {
  }

  lemma {:induction false} LeavesLookup(src: seq<SourceStep>, lib: Library, i: nat, j: nat)
    requires i <= |src| && j < i && src[j].Include? && DistinctNames(Outline(src))
    ensures src[j].name in LeavesUpTo(src, lib, i)
    ensures LeavesUpTo(src, lib, i)[src[j].name] == LeavesOf(src[j], lib)
  {
    if j < i - 1 {
      LeavesLookup(src, lib, i - 1, j);
      assert Outline(src)[j].name != Outline(src)[i - 1].name;
    }
  }

  // ---------------------------------------------------------------- pieces

  lemma {:induction false} PieceMembers(src: seq<SourceStep>, lib: Library, i: nat, s: Step)
    requires i < |src|
    ensures s in Piece(src, lib, i) <==>
      if src[i].Plain? then s == Step(src[i].name, src[i].kind, Relink(src[i].needs, LeavesUpTo(src, lib, i)))
      else exists t :: t in TemplateOf(src[i], lib) && s == Instance(src[i], t, LeavesUpTo(src, lib, i))
  {
    if src[i].Include? {
      var t, leaves := TemplateOf(src[i], lib), LeavesUpTo(src, lib, i);
      var piece := Piece(src, lib, i);
      assert forall k :: 0 <= k < |t| ==> piece[k] == Instance(src[i], t[k], leaves);
      if u :| u in t && s == Instance(src[i], u, leaves) {
        var k :| 0 <= k < |t| && t[k] == u;
        assert piece[k] == s;
      }
    }
  }

  lemma DistinctConcat(a: seq<Step>, b: seq<Step>)
    requires DistinctNames(a + b)
    ensures DistinctNames(a) && DistinctNames(b)
    ensures forall s, u :: s in a && u in b ==> s.name != u.name
  {
    forall s, u | s in a && u in b
      ensures s.name != u.name
    {
      var i :| 0 <= i < |a| && a[i] == s;
      var j :| 0 <= j < |b| && b[j] == u;
      assert (a + b)[i].name != (a + b)[|a| + j].name;
    }
    assert forall i :: 0 <= i < |a| ==> a[i] == (a + b)[i];
    assert forall j :: 0 <= j < |b| ==> b[j] == (a + b)[|a| + j];
  }

  lemma DistinctMembers(a: seq<Step>, s: Step, u: Step)
    requires DistinctNames(a) && s in a && u in a && s.name == u.name
    ensures s == u
  {
  }

  lemma SamePosition(steps: seq<Step>, p: nat, q: nat)
    requires DistinctNames(steps) && p < |steps| && q < |steps| && steps[p].name == steps[q].name
    ensures p == q
  {
  }

  lemma {:induction false} FlattenHas(pieces: seq<seq<Step>>, i: nat, k: nat, s: Step)
    requires i < k <= |pieces| && s in pieces[i]
    ensures s in Flatten(pieces, k)
    decreases k
  {
    if i < k - 1 { FlattenHas(pieces, i, k - 1, s); }
  }

  lemma {:induction false} FlattenFrom(pieces: seq<seq<Step>>, k: nat, s: Step) returns (i: nat)
    requires k <= |pieces| && s in Flatten(pieces, k)
    ensures i < k && s in pieces[i]
  {
    if s in pieces[k - 1] { i := k - 1; } else { i := FlattenFrom(pieces, k - 1, s); }
  }

  lemma {:induction false} FlattenPieceDistinct(pieces: seq<seq<Step>>, i: nat, k: nat)
    requires i < k <= |pieces| && DistinctNames(Flatten(pieces, k))
    ensures DistinctNames(pieces[i])
  {
    DistinctConcat(Flatten(pieces, k - 1), pieces[k - 1]);
    if i < k - 1 { FlattenPieceDistinct(pieces, i, k - 1); }
  }

  lemma {:induction false} FlattenUnique(pieces: seq<seq<Step>>, i: nat, j: nat, k: nat, s: Step, u: Step)
    requires i < k <= |pieces| && j < k && s in pieces[i] && u in pieces[j]
    requires DistinctNames(Flatten(pieces, k)) && s.name == u.name
    ensures i == j && s == u
  {
    DistinctConcat(Flatten(pieces, k - 1), pieces[k - 1]);
    if i < k - 1 { FlattenHas(pieces, i, k - 1, s); }
    if j < k - 1 { FlattenHas(pieces, j, k - 1, u); }
    if i < k - 1 && j < k - 1 {
      FlattenUnique(pieces, i, j, k - 1, s, u);
    } else if i == j {
      DistinctMembers(pieces[i], s, u);
    }
  }

  /** A name used twice is used in two pieces, if none of them uses it twice. */
  lemma {:induction false} SharedName(pieces: seq<seq<Step>>, top: nat) returns (k: nat, l: nat, n: Name)
    requires top <= |pieces| && !DistinctNames(Flatten(pieces, top))
    requires forall i {:trigger pieces[i]} :: 0 <= i < |pieces| ==> DistinctNames(pieces[i])
    ensures k < l < top && Declared(pieces[k], n) && Declared(pieces[l], n)
  {
    var init := Flatten(pieces, top - 1);
    if !DistinctNames(init) {
      k, l, n := SharedName(pieces, top - 1);
    } else {
      l := top - 1;
      var i, j :| 0 <= i < j < |init + pieces[l]| && (init + pieces[l])[i].name == (init + pieces[l])[j].name;
      assert i < |init| <= j;
      n := init[i].name;
      k := FlattenFrom(pieces, l, init[i]);
      assert Declared(pieces[k], n) by { var a :| 0 <= a < |pieces[k]| && pieces[k][a] == init[i]; }
      assert pieces[l][j - |init|].name == n;
    }
  }

  lemma {:induction false} PieceInExpansion(src: seq<SourceStep>, lib: Library, i: nat, s: Step)
    requires i < |src| && s in Piece(src, lib, i)
    ensures s in Expansion(src, lib)
  {
    FlattenHas(Pieces(src, lib), i, |src|, s);
  }

  lemma {:induction false} ExpansionFromPiece(src: seq<SourceStep>, lib: Library, s: Step) returns (i: nat)
    requires s in Expansion(src, lib)
    ensures i < |src| && s in Piece(src, lib, i)
  {
    i := FlattenFrom(Pieces(src, lib), |src|, s);
  }

  lemma {:induction false} PieceDistinct(src: seq<SourceStep>, lib: Library, i: nat)
    requires i < |src| && DistinctNames(Expansion(src, lib))
    ensures DistinctNames(Piece(src, lib, i))
  {
    FlattenPieceDistinct(Pieces(src, lib), i, |src|);
  }

  /** With distinct expanded names every expanded step belongs to one item only. */
  lemma {:induction false} UniquePiece(src: seq<SourceStep>, lib: Library, i: nat, j: nat, s: Step, u: Step)
    requires i < |src| && j < |src| && s in Piece(src, lib, i) && u in Piece(src, lib, j)
    requires DistinctNames(Expansion(src, lib)) && s.name == u.name
    ensures i == j && s == u
  {
    FlattenUnique(Pieces(src, lib), i, j, |src|, s, u);
  }

  // ---------------------------------------------------------------- source order implies expanded order

  /** A step of piece `i` that carries the item's own needs. */
  ghost predicate Entry(src: seq<SourceStep>, lib: Library, i: nat, s: Step)
    requires i < |src|
  {
    s in Piece(src, lib, i) && s.needs == Relink(src[i].needs, LeavesUpTo(src, lib, i))
  }

  /** A name that whoever needs item `j` is relinked to. */
  ghost predicate Exit(src: seq<SourceStep>, lib: Library, j: nat, x: Name)
    requires j < |src|
  {
    InPiece(src, lib, j, x) && if src[j].Plain? then x == src[j].name else x in LeavesOf(src[j], lib)
  }

  ghost predicate AtOrAbove(steps: seq<Step>, a: Name, b: Name) {
    a == b || Reaches(steps, a, b)
  }

  lemma {:induction false} Chain(steps: seq<Step>, a: Name, b: Name, c: Name, d: Name)
    requires AtOrAbove(steps, a, b) && Reaches(steps, b, c) && AtOrAbove(steps, c, d)
    ensures Reaches(steps, a, d)
  {
    if a != b { ReachesTrans(steps, a, b, c); }
    if c != d { ReachesTrans(steps, a, c, d); }
  }

  lemma {:induction false} MemberInPiece(src: seq<SourceStep>, lib: Library, i: nat, s: Step)
    requires i < |src| && s in Piece(src, lib, i)
    ensures InPiece(src, lib, i, s.name)
  {
    var m :| 0 <= m < |Piece(src, lib, i)| && Piece(src, lib, i)[m] == s;
  }

  lemma {:induction false} InstanceInPiece(src: seq<SourceStep>, lib: Library, i: nat, t: Step) returns (s: Step)
    requires i < |src| && src[i].Include? && t in TemplateOf(src[i], lib)
    ensures s == Instance(src[i], t, LeavesUpTo(src, lib, i)) && s.name == Qualified(src[i].name, t.name)
    ensures s in Piece(src, lib, i) && s in Expansion(src, lib) && InPiece(src, lib, i, s.name)
  {
    s := Instance(src[i], t, LeavesUpTo(src, lib, i));
    PieceMembers(src, lib, i, s);
    PieceInExpansion(src, lib, i, s);
    MemberInPiece(src, lib, i, s);
  }

  lemma {:induction false} EmbedEdge(src: seq<SourceStep>, lib: Library, i: nat, a: Name, b: Name)
    requires i < |src| && src[i].Include? && Edge(TemplateOf(src[i], lib), a, b)
    ensures Edge(Expansion(src, lib), Qualified(src[i].name, a), Qualified(src[i].name, b))
  {
    var t :| t in TemplateOf(src[i], lib) && t.name == a && b in t.needs;
    var s := InstanceInPiece(src, lib, i, t);
    var k :| 0 <= k < |t.needs| && t.needs[k] == b;
    assert s.needs[k] == Qualified(src[i].name, b);
  }

  lemma MapPath(t: seq<Step>, e: seq<Step>, inc: Name, p: seq<Name>, a: Name, b: Name)
    requires PathFromTo(t, p, a, b)
    requires forall x, y :: Edge(t, x, y) ==> Edge(e, Qualified(inc, x), Qualified(inc, y))
    ensures Reaches(e, Qualified(inc, a), Qualified(inc, b))
  {
    var q := QualifiedAll(inc, p);
    forall k | 0 <= k < |q| - 1
      ensures Edge(e, q[k], q[k + 1])
    {
      assert Edge(t, p[k], p[k + 1]);
    }
    assert PathFromTo(e, q, Qualified(inc, a), Qualified(inc, b));
  }

  /** A template keeps its own order inside the expanded phase. */
  lemma {:induction false} Embed(src: seq<SourceStep>, lib: Library, i: nat, a: Name, b: Name)
    requires i < |src| && src[i].Include? && Reaches(TemplateOf(src[i], lib), a, b)
    ensures Reaches(Expansion(src, lib), Qualified(src[i].name, a), Qualified(src[i].name, b))
  {
    var p :| PathFromTo(TemplateOf(src[i], lib), p, a, b);
    forall x, y | Edge(TemplateOf(src[i], lib), x, y)
      ensures Edge(Expansion(src, lib), Qualified(src[i].name, x), Qualified(src[i].name, y))
    {
      EmbedEdge(src, lib, i, x, y);
    }
    MapPath(TemplateOf(src[i], lib), Expansion(src, lib), src[i].name, p, a, b);
  }

  lemma {:induction false} ToEntry(src: seq<SourceStep>, lib: Library, i: nat, x: Name) returns (e: Step)
    requires i < |src| && InPiece(src, lib, i, x)
    requires TemplateAccepted(src, lib, i)
    ensures Entry(src, lib, i, e) && AtOrAbove(Expansion(src, lib), x, e.name)
  {
    var m :| 0 <= m < |Piece(src, lib, i)| && Piece(src, lib, i)[m].name == x;
    var s := Piece(src, lib, i)[m];
    PieceMembers(src, lib, i, s);
    if src[i].Plain? {
      e := s;
    } else {
      var t :| t in TemplateOf(src[i], lib) && s == Instance(src[i], t, LeavesUpTo(src, lib, i));
      var bottom := DescendToEntry(TemplateOf(src[i], lib), t);
      e := InstanceInPiece(src, lib, i, bottom);
      if bottom != t { Embed(src, lib, i, t.name, bottom.name); }
    }
  }

  lemma {:induction false} FromExit(src: seq<SourceStep>, lib: Library, j: nat, y: Name) returns (x: Name)
    requires j < |src| && InPiece(src, lib, j, y)
    requires TemplateAccepted(src, lib, j)
    ensures Exit(src, lib, j, x) && AtOrAbove(Expansion(src, lib), x, y)
  {
    var m :| 0 <= m < |Piece(src, lib, j)| && Piece(src, lib, j)[m].name == y;
    var s := Piece(src, lib, j)[m];
    PieceMembers(src, lib, j, s);
    if src[j].Plain? {
      x := y;
    } else {
      var template := TemplateOf(src[j], lib);
      var t :| t in template && s == Instance(src[j], t, LeavesUpTo(src, lib, j));
      var top := AscendToLeaf(template, t);
      var l := InstanceInPiece(src, lib, j, top);
      x := l.name;
      var k :| 0 <= k < |template| && template[k] == top;
      LeafMembers(src[j].name, template, |template|, x);
      if top != t { Embed(src, lib, j, top.name, t.name); }
    }
  }

  /** The item a need resolves to. */
  lemma {:induction false} ResolveNeed(src: seq<SourceStep>, lib: Library, i: nat, j: nat)
    requires i < |src| && j < |src| && DistinctNames(Outline(src))
    requires Resolvable(src, i, src[j].name)
    ensures var leaves := LeavesUpTo(src, lib, i);
      if src[j].Plain? then src[j].name !in leaves
      else src[j].name in leaves && leaves[src[j].name] == LeavesOf(src[j], lib)
  {
    var k: nat :| k < |src| && src[k].name == src[j].name && (src[k].Plain? || k < i);
    SamePosition(Outline(src), j, k);
    if src[j].Include? {
      LeavesLookup(src, lib, i, j);
    } else {
      LeavesKeys(src, lib, i, src[j].name);
      forall m | 0 <= m < i && src[m].Include?
        ensures src[m].name != src[j].name
      {
        assert m != j && Outline(src)[m].name == src[m].name;
      }
    }
  }

  lemma {:induction false} EntryNeedsExit(src: seq<SourceStep>, lib: Library, i: nat, j: nat, e: Step, x: Name)
    requires i < |src| && j < |src| && DistinctNames(Outline(src))
    requires src[j].name in src[i].needs && Resolvable(src, i, src[j].name)
    requires Entry(src, lib, i, e) && Exit(src, lib, j, x)
    ensures Reaches(Expansion(src, lib), e.name, x)
  {
    ResolveNeed(src, lib, i, j);
    RelinkMembers(src[i].needs, LeavesUpTo(src, lib, i), x);
    PieceInExpansion(src, lib, i, e);
    EdgeFrom(Expansion(src, lib), e, x);
  }

  ghost predicate EveryNeedsEvery(src: seq<SourceStep>, lib: Library, i: nat, j: nat)
    requires i < |src| && j < |src|
  {
    forall x, y :: InPiece(src, lib, i, x) && InPiece(src, lib, j, y) ==> Reaches(Expansion(src, lib), x, y)
  }

  ghost predicate SomeNeedsSome(src: seq<SourceStep>, lib: Library, i: nat, j: nat)
    requires i < |src| && j < |src|
  {
    exists x, y :: InPiece(src, lib, i, x) && InPiece(src, lib, j, y) && Reaches(Expansion(src, lib), x, y)
  }

  /** Item `i` needs item `j`, and the expander can tell. */
  ghost predicate ItemEdge(src: seq<SourceStep>, i: nat, j: nat) {
    i < |src| && j < |src| && src[j].name in src[i].needs && Resolvable(src, i, src[j].name)
  }

  ghost predicate Hop(src: seq<SourceStep>, q: seq<nat>, k: nat) {
    k + 1 < |q| && ItemEdge(src, q[k], q[k + 1])
  }

  /** A chain of needs between items.  What it asks of the phase it asks of its own items only:
      accepted templates, and none that is empty on the way. */
  ghost predicate ItemPath(src: seq<SourceStep>, lib: Library, q: seq<nat>) {
    && |q| >= 2 && (forall k :: 0 <= k < |q| ==> q[k] < |src| && TemplateAccepted(src, lib, q[k]))
    && (forall k: nat :: k < |q| - 1 ==> Hop(src, q, k))
    && forall k :: 0 < k < |q| - 1 ==> Live(src, lib, q[k])
  }

  lemma {:induction false} DirectNeed(src: seq<SourceStep>, lib: Library, i: nat, j: nat)
    requires DistinctNames(Outline(src)) && ItemEdge(src, i, j)
    requires TemplateAccepted(src, lib, i) && TemplateAccepted(src, lib, j)
    ensures EveryNeedsEvery(src, lib, i, j)
  {
    forall x, y | InPiece(src, lib, i, x) && InPiece(src, lib, j, y)
      ensures Reaches(Expansion(src, lib), x, y)
    {
      var e := ToEntry(src, lib, i, x);
      var l := FromExit(src, lib, j, y);
      EntryNeedsExit(src, lib, i, j, e, l);
      Chain(Expansion(src, lib), x, e.name, l, y);
    }
  }

  lemma {:induction false} SomeStep(src: seq<SourceStep>, lib: Library, i: nat) returns (s: Step)
    requires i < |src| && Live(src, lib, i)
    ensures s in Piece(src, lib, i) && InPiece(src, lib, i, s.name)
  {
    s := Piece(src, lib, i)[0];
    MemberInPiece(src, lib, i, s);
  }

  lemma LiveIfMember(src: seq<SourceStep>, lib: Library, i: nat, x: Name)
    requires i < |src| && InPiece(src, lib, i, x)
    ensures Live(src, lib, i)
  {
  }

  /** A step of the item in between carries the order on. */
  lemma {:induction false} ThroughLive(src: seq<SourceStep>, lib: Library, i: nat, k: nat, j: nat)
    requires i < |src| && k < |src| && j < |src| && Live(src, lib, k)
    requires EveryNeedsEvery(src, lib, i, k) && EveryNeedsEvery(src, lib, k, j)
    ensures EveryNeedsEvery(src, lib, i, j)
  {
    var mid := SomeStep(src, lib, k);
    forall x, y | InPiece(src, lib, i, x) && InPiece(src, lib, j, y)
      ensures Reaches(Expansion(src, lib), x, y)
    {
      ReachesTrans(Expansion(src, lib), x, mid.name, y);
    }
  }

  /** Along a chain of items from `i` to `j` every step of the first needs every step of the last. */
  lemma {:induction false} ItemPathForward(src: seq<SourceStep>, lib: Library, q: seq<nat>, i: nat, j: nat)
    requires DistinctNames(Outline(src)) && ItemPath(src, lib, q) && i == q[0] && j == q[|q| - 1]
    ensures i < |src| && j < |src| && EveryNeedsEvery(src, lib, i, j)
    decreases |q|
  {
    FirstHop(src, lib, q);
    if |q| == 2 {
      DirectNeed(src, lib, i, j);
    } else {
      var k := q[1];
      ItemPathRest(src, lib, q);
      ItemPathForward(src, lib, q[1..], k, j);
      HopForward(src, lib, i, k, j);
    }
  }

  lemma {:induction false} HopForward(src: seq<SourceStep>, lib: Library, i: nat, k: nat, j: nat)
    requires DistinctNames(Outline(src)) && ItemEdge(src, i, k) && j < |src| && Live(src, lib, k)
    requires TemplateAccepted(src, lib, i) && TemplateAccepted(src, lib, k) && EveryNeedsEvery(src, lib, k, j)
    ensures EveryNeedsEvery(src, lib, i, j)
  {
    DirectNeed(src, lib, i, k);
    ThroughLive(src, lib, i, k, j);
  }

  lemma FirstHop(src: seq<SourceStep>, lib: Library, q: seq<nat>)
    requires ItemPath(src, lib, q)
    ensures ItemEdge(src, q[0], q[1]) && TemplateAccepted(src, lib, q[0]) && TemplateAccepted(src, lib, q[1])
    ensures |q| > 2 ==> Live(src, lib, q[1])
  {
    assert Hop(src, q, 0);
  }

  lemma ItemPathRest(src: seq<SourceStep>, lib: Library, q: seq<nat>)
    requires ItemPath(src, lib, q) && |q| > 2
    ensures ItemPath(src, lib, q[1..]) && q[1..][0] == q[1] && q[1..][|q[1..]| - 1] == q[|q| - 1]
  {
    var rest := q[1..];
    forall k: nat | k < |rest| - 1
      ensures Hop(src, rest, k)
    {
      assert Hop(src, q, k + 1);
    }
  }

  lemma {:induction false} TrimmedEdge(src: seq<SourceStep>, lib: Library, i: nat, d: Name)
    requires i < |src| && DistinctNames(Outline(src))
    ensures Edge(Trimmed(src, lib), src[i].name, d) <==> Live(src, lib, i) && d in src[i].needs
  {
    var o := Trimmed(src, lib);
    TrimmedDistinct(src, lib);
    if Edge(o, src[i].name, d) {
      var s :| s in o && s.name == src[i].name && d in s.needs;
      var k: nat :| k < |o| && o[k] == s;
      SamePosition(o, i, k);
    }
    assert o[i] in o;
  }

  lemma TrimmedDistinct(src: seq<SourceStep>, lib: Library)
    requires DistinctNames(Outline(src))
    ensures DistinctNames(Trimmed(src, lib))
  {
    assert forall i :: 0 <= i < |src| ==> Trimmed(src, lib)[i].name == Outline(src)[i].name;
  }

  lemma {:induction false} PathForward(src: seq<SourceStep>, lib: Library, i: nat, j: nat, p: seq<Name>)
    requires i < |src| && j < |src| && Linked(src, lib)
    requires PathFromTo(Trimmed(src, lib), p, src[i].name, src[j].name)
    ensures EveryNeedsEvery(src, lib, i, j)
    decreases |p|
  {
    ReachesFirst(Trimmed(src, lib), p, src[i].name, src[j].name);
    TrimmedEdge(src, lib, i, p[1]);
    assert Resolvable(src, i, p[1]);
    var k: nat :| k < |src| && src[k].name == p[1];
    DirectNeed(src, lib, i, k);
    if |p| == 2 {
      SamePosition(Outline(src), j, k);
    } else {
      ReachesFirst(Trimmed(src, lib), p[1..], src[k].name, src[j].name);
      TrimmedEdge(src, lib, k, p[2]);
      PathForward(src, lib, k, j, p[1..]);
      ThroughLive(src, lib, i, k, j);
    }
  }

  // ---------------------------------------------------------------- expanded order implies source order

  /** Why an expanded step needs `y`: the item needs another item, or the template says so. */
  ghost predicate InnerNeed(src: seq<SourceStep>, lib: Library, i: nat, x: Name, y: Name)
    requires i < |src|
  {
    && src[i].Include?
    && exists a, b ::
         Edge(TemplateOf(src[i], lib), a, b) && x == Qualified(src[i].name, a) && y == Qualified(src[i].name, b)
  }

  ghost predicate OuterNeed(src: seq<SourceStep>, lib: Library, i: nat, y: Name)
    requires i < |src|
  {
    exists j: nat :: j < |src| && src[j].name in src[i].needs && InPiece(src, lib, j, y)
  }

  lemma {:induction false} RelinkedNeed(src: seq<SourceStep>, lib: Library, i: nat, y: Name)
    requires i < |src| && Live(src, lib, i) && Linked(src, lib)
    requires y in Relink(src[i].needs, LeavesUpTo(src, lib, i))
    ensures OuterNeed(src, lib, i, y)
  {
    var leaves := LeavesUpTo(src, lib, i);
    RelinkMembers(src[i].needs, leaves, y);
    var d :| d in src[i].needs && if d in leaves then y in leaves[d] else y == d;
    assert Resolvable(src, i, d);
    var j: nat :| j < |src| && src[j].name == d && (src[j].Plain? || j < i);
    ResolveNeed(src, lib, i, j);
    if src[j].Plain? {
      PieceMembers(src, lib, j, Piece(src, lib, j)[0]);
      MemberInPiece(src, lib, j, Piece(src, lib, j)[0]);
    } else {
      var t := TemplateOf(src[j], lib);
      LeafMembers(src[j].name, t, |t|, y);
      var m :| 0 <= m < |t| && y == Qualified(src[j].name, t[m].name);
      var s := InstanceInPiece(src, lib, j, t[m]);
    }
    assert InPiece(src, lib, j, y);
  }

  lemma {:induction false} WhyNeeded(src: seq<SourceStep>, lib: Library, i: nat, s: Step, y: Name)
    requires i < |src| && Linked(src, lib)
    requires s in Piece(src, lib, i) && y in s.needs
    ensures OuterNeed(src, lib, i, y) || InnerNeed(src, lib, i, s.name, y)
  {
    PieceMembers(src, lib, i, s);
    if src[i].Plain? {
      RelinkedNeed(src, lib, i, y);
    } else {
      var t :| t in TemplateOf(src[i], lib) && s == Instance(src[i], t, LeavesUpTo(src, lib, i));
      if t.needs == [] {
        RelinkedNeed(src, lib, i, y);
      } else {
        var k :| 0 <= k < |t.needs| && s.needs[k] == y;
        EdgeFrom(TemplateOf(src[i], lib), t, t.needs[k]);
      }
    }
  }

  /** How `x` in piece `i` comes to need `y` in piece `j`: through the source, or inside one template. */
  ghost predicate Explained(src: seq<SourceStep>, lib: Library, i: nat, j: nat, x: Name, y: Name)
    requires i < |src| && j < |src|
  {
    || Reaches(Trimmed(src, lib), src[i].name, src[j].name)
    || (i == j && InnerReach(src, lib, i, x, y))
  }

  ghost predicate InnerReach(src: seq<SourceStep>, lib: Library, i: nat, x: Name, y: Name)
    requires i < |src|
  {
    && src[i].Include?
    && exists a, b ::
         Reaches(TemplateOf(src[i], lib), a, b) && x == Qualified(src[i].name, a) && y == Qualified(src[i].name, b)
  }

  lemma {:induction false} InnerTrans(src: seq<SourceStep>, lib: Library, i: nat, x: Name, m: Name, y: Name)
    requires i < |src| && InnerReach(src, lib, i, x, m) && InnerReach(src, lib, i, m, y)
    ensures InnerReach(src, lib, i, x, y)
  {
    var t := TemplateOf(src[i], lib);
    var a, b :| Reaches(t, a, b) && x == Qualified(src[i].name, a) && m == Qualified(src[i].name, b);
    var c, d :| Reaches(t, c, d) && m == Qualified(src[i].name, c) && y == Qualified(src[i].name, d);
    QualifiedInjective(src[i].name, b, c);
    ReachesTrans(t, a, b, d);
  }

  lemma {:induction false} ExplainedTrans(src: seq<SourceStep>, lib: Library, i: nat, k: nat, j: nat, x: Name, m: Name, y: Name)
    requires i < |src| && j < |src| && k < |src|
    requires Explained(src, lib, i, k, x, m) && Explained(src, lib, k, j, m, y)
    ensures Explained(src, lib, i, j, x, y)
  {
    var o := Trimmed(src, lib);
    if Reaches(o, src[i].name, src[k].name) {
      if Reaches(o, src[k].name, src[j].name) { ReachesTrans(o, src[i].name, src[k].name, src[j].name); }
    } else if !Reaches(o, src[k].name, src[j].name) {
      InnerTrans(src, lib, i, x, m, y);
    }
  }

  lemma {:induction false} ExplainOuter(src: seq<SourceStep>, lib: Library, i: nat, x: Name, y: Name) returns (k: nat)
    requires i < |src| && Live(src, lib, i) && DistinctNames(Outline(src)) && OuterNeed(src, lib, i, y)
    ensures k < |src| && InPiece(src, lib, k, y) && Explained(src, lib, i, k, x, y)
  {
    k :| k < |src| && src[k].name in src[i].needs && InPiece(src, lib, k, y);
    TrimmedEdge(src, lib, i, src[k].name);
    EdgeReaches(Trimmed(src, lib), src[i].name, src[k].name);
  }

  lemma {:induction false} ExplainInner(src: seq<SourceStep>, lib: Library, i: nat, x: Name, y: Name)
    requires i < |src| && TemplateAccepted(src, lib, i) && InnerNeed(src, lib, i, x, y)
    ensures InPiece(src, lib, i, y) && Explained(src, lib, i, i, x, y)
  {
    var template := TemplateOf(src[i], lib);
    var a, b :| Edge(template, a, b) && x == Qualified(src[i].name, a) && y == Qualified(src[i].name, b);
    EdgeReaches(template, a, b);
    var t :| t in template && t.name == a && b in t.needs;
    assert Declared(template, b);
    var n :| 0 <= n < |template| && template[n].name == b;
    var u := InstanceInPiece(src, lib, i, template[n]);
  }

  /** The piece of an expanded need, with the reason for it. */
  lemma {:induction false} ExplainEdge(src: seq<SourceStep>, lib: Library, i: nat, x: Name, y: Name) returns (k: nat)
    requires i < |src| && Linked(src, lib) && DistinctNames(Expansion(src, lib))
    requires InPiece(src, lib, i, x) && Edge(Expansion(src, lib), x, y)
    ensures k < |src| && InPiece(src, lib, k, y) && Explained(src, lib, i, k, x, y)
  {
    var s :| s in Expansion(src, lib) && s.name == x && y in s.needs;
    var at := ExpansionFromPiece(src, lib, s);
    var m :| 0 <= m < |Piece(src, lib, i)| && Piece(src, lib, i)[m].name == x;
    UniquePiece(src, lib, i, at, Piece(src, lib, i)[m], s);
    WhyNeeded(src, lib, i, s, y);
    if OuterNeed(src, lib, i, y) {
      LiveIfMember(src, lib, i, x);
      k := ExplainOuter(src, lib, i, x, y);
    } else {
      k := i;
      ExplainInner(src, lib, i, x, y);
    }
  }

  lemma {:induction false} SamePiece(src: seq<SourceStep>, lib: Library, i: nat, j: nat, x: Name)
    requires i < |src| && j < |src| && DistinctNames(Expansion(src, lib))
    requires InPiece(src, lib, i, x) && InPiece(src, lib, j, x)
    ensures i == j
  {
    var m :| 0 <= m < |Piece(src, lib, i)| && Piece(src, lib, i)[m].name == x;
    var n :| 0 <= n < |Piece(src, lib, j)| && Piece(src, lib, j)[n].name == x;
    UniquePiece(src, lib, i, j, Piece(src, lib, i)[m], Piece(src, lib, j)[n]);
  }

  lemma {:induction false} PathBackward(src: seq<SourceStep>, lib: Library, i: nat, j: nat, x: Name, y: Name, p: seq<Name>)
    requires i < |src| && j < |src| && Linked(src, lib) && DistinctNames(Expansion(src, lib))
    requires InPiece(src, lib, i, x) && InPiece(src, lib, j, y)
    requires PathFromTo(Expansion(src, lib), p, x, y)
    ensures Explained(src, lib, i, j, x, y)
    decreases |p|
  {
    ReachesFirst(Expansion(src, lib), p, x, y);
    var k := ExplainEdge(src, lib, i, x, p[1]);
    if |p| == 2 {
      SamePiece(src, lib, j, k, y);
    } else {
      PathBackward(src, lib, k, j, p[1], y, p[1..]);
      ExplainedTrans(src, lib, i, k, j, x, p[1], y);
    }
  }

  // ---------------------------------------------------------------- the theorems

  /** Expansion preserves ordering.  Between two different items that are expanded to something,
      needing by way of such items, some expanded step needing some other, and every one needing
      every other are the same thing. */
  lemma {:induction false} OrderPreserved(src: seq<SourceStep>, lib: Library, i: nat, j: nat)
    requires Sound(src, lib) && i < |src| && j < |src| && i != j && Live(src, lib, i) && Live(src, lib, j)
    ensures Reaches(Trimmed(src, lib), src[i].name, src[j].name) <==> EveryNeedsEvery(src, lib, i, j)
    ensures Reaches(Trimmed(src, lib), src[i].name, src[j].name) <==> SomeNeedsSome(src, lib, i, j)
  {
    DistinctIffNoCollision(src, lib);
    if p :| PathFromTo(Trimmed(src, lib), p, src[i].name, src[j].name) {
      PathForward(src, lib, i, j, p);
    }
    if EveryNeedsEvery(src, lib, i, j) {
      var x := SomeStep(src, lib, i);
      var y := SomeStep(src, lib, j);
      assert Reaches(Expansion(src, lib), x.name, y.name);
    }
    if SomeNeedsSome(src, lib, i, j) {
      var x, y :| InPiece(src, lib, i, x) && InPiece(src, lib, j, y) && Reaches(Expansion(src, lib), x, y);
      var p :| PathFromTo(Expansion(src, lib), p, x, y);
      PathBackward(src, lib, i, j, x, y, p);
    }
  }

  /** Inside one include the template's own order is kept, and nothing is added to it
      unless the source itself is cyclic. */
  lemma {:induction false} TemplateOrderPreserved(src: seq<SourceStep>, lib: Library, i: nat, s: Step, t: Step)
    requires Sound(src, lib) && Acyclic(Trimmed(src, lib)) && i < |src| && src[i].Include?
    requires s in TemplateOf(src[i], lib) && t in TemplateOf(src[i], lib)
    ensures Reaches(TemplateOf(src[i], lib), s.name, t.name) <==>
      Reaches(Expansion(src, lib), Qualified(src[i].name, s.name), Qualified(src[i].name, t.name))
  {
    DistinctIffNoCollision(src, lib);
    var x, y := Qualified(src[i].name, s.name), Qualified(src[i].name, t.name);
    if Reaches(TemplateOf(src[i], lib), s.name, t.name) { Embed(src, lib, i, s.name, t.name); }
    if p :| PathFromTo(Expansion(src, lib), p, x, y) {
      var u := InstanceInPiece(src, lib, i, s);
      var v := InstanceInPiece(src, lib, i, t);
      PathBackward(src, lib, i, i, x, y, p);
      var a, b :| Reaches(TemplateOf(src[i], lib), a, b) && x == Qualified(src[i].name, a) && y == Qualified(src[i].name, b);
      QualifiedInjective(src[i].name, a, s.name);
      QualifiedInjective(src[i].name, b, t.name);
    }
  }

  lemma {:induction false} InPieceIff(src: seq<SourceStep>, lib: Library, i: nat, n: Name)
    requires i < |src|
    ensures InPiece(src, lib, i, n) <==> EmitsAt(src, lib, i, n)
  {
    if InPiece(src, lib, i, n) {
      var m :| 0 <= m < |Piece(src, lib, i)| && Piece(src, lib, i)[m].name == n;
      PieceMembers(src, lib, i, Piece(src, lib, i)[m]);
    }
    if EmitsAt(src, lib, i, n) {
      if src[i].Plain? {
        assert Piece(src, lib, i)[0].name == n;
      } else {
        var t :| t in TemplateOf(src[i], lib) && n == Qualified(src[i].name, t.name);
        var s := InstanceInPiece(src, lib, i, t);
        MemberInPiece(src, lib, i, s);
      }
    }
  }

  /** Some item is expanded to a step of this name. */
  ghost predicate Emits(src: seq<SourceStep>, lib: Library, n: Name) {
    exists i: nat :: i < |src| && EmitsAt(src, lib, i, n)
  }

  lemma {:induction false} EmitsDeclared(src: seq<SourceStep>, lib: Library, n: Name)
    ensures Declared(Expansion(src, lib), n) <==> Emits(src, lib, n)
  {
    if Declared(Expansion(src, lib), n) {
      var m :| 0 <= m < |Expansion(src, lib)| && Expansion(src, lib)[m].name == n;
      var i := ExpansionFromPiece(src, lib, Expansion(src, lib)[m]);
      MemberInPiece(src, lib, i, Expansion(src, lib)[m]);
      InPieceIff(src, lib, i, n);
    }
    if i: nat :| i < |src| && EmitsAt(src, lib, i, n) {
      InPieceIff(src, lib, i, n);
      var m :| 0 <= m < |Piece(src, lib, i)| && Piece(src, lib, i)[m].name == n;
      PieceInExpansion(src, lib, i, Piece(src, lib, i)[m]);
      InExpansion(src, lib, Piece(src, lib, i)[m]);
    }
  }

  lemma {:induction false} PieceOfDistinct(src: seq<SourceStep>, lib: Library, i: nat)
    requires i < |src| && (src[i].Include? ==> DistinctNames(TemplateOf(src[i], lib)))
    ensures DistinctNames(Piece(src, lib, i))
  {
    if src[i].Include? {
      var t, piece := TemplateOf(src[i], lib), Piece(src, lib, i);
      forall a, b | 0 <= a < b < |piece|
        ensures piece[a].name != piece[b].name
      {
        assert piece[a].name == Qualified(src[i].name, t[a].name) && piece[b].name == Qualified(src[i].name, t[b].name);
        if piece[a].name == piece[b].name { QualifiedInjective(src[i].name, t[a].name, t[b].name); }
      }
    }
  }

  /** Names of the expanded phase are distinct exactly when the items do not collide. */
  lemma {:induction false} DistinctIffNoCollision(src: seq<SourceStep>, lib: Library)
    ensures DistinctNames(Expansion(src, lib)) <==> NoCollision(src, lib)
  {
    if DistinctNames(Expansion(src, lib)) {
      forall i: nat | i < |src| && src[i].Include?
        ensures DistinctNames(TemplateOf(src[i], lib))
      {
        DistinctTemplate(src, lib, i);
      }
      forall i: nat, j: nat, n | i < j < |src| && EmitsAt(src, lib, i, n)
        ensures !EmitsAt(src, lib, j, n)
      {
        InPieceIff(src, lib, i, n);
        InPieceIff(src, lib, j, n);
        if InPiece(src, lib, j, n) { SamePiece(src, lib, i, j, n); }
      }
    }
    if NoCollision(src, lib) && !DistinctNames(Expansion(src, lib)) {
      var pieces := Pieces(src, lib);
      forall i | 0 <= i < |pieces|
        ensures DistinctNames(pieces[i])
      {
        PieceOfDistinct(src, lib, i);
      }
      var i, j, n := SharedName(pieces, |src|);
      InPieceIff(src, lib, i, n);
      InPieceIff(src, lib, j, n);
      assert false;
    }
  }

  lemma InExpansion(src: seq<SourceStep>, lib: Library, s: Step)
    requires s in Expansion(src, lib)
    ensures Declared(Expansion(src, lib), s.name)
  {
    var m :| 0 <= m < |Expansion(src, lib)| && Expansion(src, lib)[m] == s;
  }

  /** No need that fails to resolve happens to spell the name of an expanded step. */
  ghost predicate NoStrayReference(src: seq<SourceStep>, lib: Library) {
    && (forall i: nat, d :: i < |src| && Live(src, lib, i) && d in src[i].needs ==>
          Resolvable(src, i, d) || !Emits(src, lib, d))
    && (forall i: nat, t, d :: i < |src| && src[i].Include? && t in TemplateOf(src[i], lib) && d in t.needs ==>
          Declared(TemplateOf(src[i], lib), d) || !Emits(src, lib, Qualified(src[i].name, d)))
  }

  lemma {:induction false} DistinctTemplate(src: seq<SourceStep>, lib: Library, i: nat)
    requires i < |src| && src[i].Include? && DistinctNames(Expansion(src, lib))
    ensures DistinctNames(TemplateOf(src[i], lib))
  {
    var t := TemplateOf(src[i], lib);
    forall a, b | 0 <= a < b < |t|
      ensures t[a].name != t[b].name
    {
      PieceDistinct(src, lib, i);
      var leaves := LeavesUpTo(src, lib, i);
      assert Piece(src, lib, i)[a] == Instance(src[i], t[a], leaves);
      assert Piece(src, lib, i)[b] == Instance(src[i], t[b], leaves);
    }
  }

  lemma {:induction false} AcceptedTemplate(src: seq<SourceStep>, lib: Library, i: nat)
    requires i < |src| && src[i].Include? && Accepted(Expansion(src, lib)) && NoStrayReference(src, lib)
    ensures Accepted(TemplateOf(src[i], lib))
  {
    var template := TemplateOf(src[i], lib);
    DistinctTemplate(src, lib, i);
    forall t, d | t in template && d in t.needs
      ensures Declared(template, d)
    {
      var s := InstanceInPiece(src, lib, i, t);
      var k :| 0 <= k < |t.needs| && t.needs[k] == d;
      assert s.needs[k] == Qualified(src[i].name, d);
      assert Declared(Expansion(src, lib), s.needs[k]);
      EmitsDeclared(src, lib, s.needs[k]);
    }
    forall n
      ensures !Reaches(template, n, n)
    {
      if Reaches(template, n, n) { Embed(src, lib, i, n, n); }
    }
  }

  lemma {:induction false} AcceptedNeed(src: seq<SourceStep>, lib: Library, i: nat, d: Name)
    requires i < |src| && Live(src, lib, i) && d in src[i].needs
    requires Accepted(Expansion(src, lib)) && NoStrayReference(src, lib) && TemplateAccepted(src, lib, i)
    ensures Resolvable(src, i, d)
  {
    var leaves := LeavesUpTo(src, lib, i);
    LeavesKeys(src, lib, i, d);
    if d !in leaves {
      var x := SomeStep(src, lib, i);
      var e := ToEntry(src, lib, i, x.name);
      PieceInExpansion(src, lib, i, e);
      RelinkMembers(src[i].needs, leaves, d);
      assert Declared(Expansion(src, lib), d);
      EmitsDeclared(src, lib, d);
    }
  }

  lemma {:induction false} AcceptedTrimmed(src: seq<SourceStep>, lib: Library)
    requires Linked(src, lib) && Acyclic(Expansion(src, lib))
    ensures Acyclic(Trimmed(src, lib))
  {
    var o := Trimmed(src, lib);
    forall n
      ensures !Reaches(o, n, n)
    {
      if p :| PathFromTo(o, p, n, n) {
        ReachesFirst(o, p, n, n);
        var s :| s in o && s.name == n && p[1] in s.needs;
        var i: nat :| i < |src| && o[i] == s;
        PathForward(src, lib, i, i, p);
        var x := SomeStep(src, lib, i);
        assert Reaches(Expansion(src, lib), x.name, x.name);
      }
    }
  }

  lemma {:induction false} ExpansionNeedsKnown(src: seq<SourceStep>, lib: Library)
    requires Linked(src, lib) && DistinctNames(Expansion(src, lib))
    ensures NeedsKnown(Expansion(src, lib))
  {
    forall s, d | s in Expansion(src, lib) && d in s.needs
      ensures Declared(Expansion(src, lib), d)
    {
      var i := ExpansionFromPiece(src, lib, s);
      MemberInPiece(src, lib, i, s);
      EdgeFrom(Expansion(src, lib), s, d);
      var k := ExplainEdge(src, lib, i, s.name, d);
      var m :| 0 <= m < |Piece(src, lib, k)| && Piece(src, lib, k)[m].name == d;
      PieceInExpansion(src, lib, k, Piece(src, lib, k)[m]);
    }
  }

  lemma {:induction false} NoInnerCycle(src: seq<SourceStep>, lib: Library, i: nat, n: Name)
    requires i < |src| && TemplateAccepted(src, lib, i)
    ensures !InnerReach(src, lib, i, n, n)
  {
    if InnerReach(src, lib, i, n, n) {
      var a, b :| Reaches(TemplateOf(src[i], lib), a, b) && n == Qualified(src[i].name, a) && n == Qualified(src[i].name, b);
      QualifiedInjective(src[i].name, a, b);
      assert false;
    }
  }

  lemma {:induction false} ExpansionAcyclic(src: seq<SourceStep>, lib: Library)
    requires Linked(src, lib) && DistinctNames(Expansion(src, lib)) && Acyclic(Trimmed(src, lib))
    ensures Acyclic(Expansion(src, lib))
  {
    forall n
      ensures !Reaches(Expansion(src, lib), n, n)
    {
      if p :| PathFromTo(Expansion(src, lib), p, n, n) {
        ReachesFirst(Expansion(src, lib), p, n, n);
        var s :| s in Expansion(src, lib) && s.name == n;
        var i := ExpansionFromPiece(src, lib, s);
        MemberInPiece(src, lib, i, s);
        PathBackward(src, lib, i, i, n, n, p);
        NoInnerCycle(src, lib, i, n);
      }
    }
  }

  /** Validation of the expanded phase is validation of what was written: names do not
      collide, every need resolves, no included template is cyclic, and neither is the source
      graph, apart from cycles through includes that are expanded to nothing. */
  lemma {:induction false} AcceptedIffSourceAccepted(src: seq<SourceStep>, lib: Library)
    requires DistinctNames(Outline(src))
    ensures Accepted(Expansion(src, lib)) && NoStrayReference(src, lib) <==>
      && NoCollision(src, lib)
      && AllResolvable(src, lib)
      && Acyclic(Trimmed(src, lib))
      && TemplatesAccepted(src, lib)
  {
    DistinctIffNoCollision(src, lib);
    if Accepted(Expansion(src, lib)) && NoStrayReference(src, lib) {
      forall i: nat | i < |src|
        ensures TemplateAccepted(src, lib, i)
      {
        if src[i].Include? { AcceptedTemplate(src, lib, i); }
      }
      forall i: nat, d | i < |src| && Live(src, lib, i) && d in src[i].needs
        ensures Resolvable(src, i, d)
      {
        AcceptedNeed(src, lib, i, d);
      }
      AcceptedTrimmed(src, lib);
    }
    if Sound(src, lib) && Acyclic(Trimmed(src, lib)) {
      ExpansionNeedsKnown(src, lib);
      ExpansionAcyclic(src, lib);
      SoundHasNoStray(src, lib);
    }
  }

  lemma SoundHasNoStray(src: seq<SourceStep>, lib: Library)
    requires Linked(src, lib)
    ensures NoStrayReference(src, lib)
  {
    forall i: nat, t, d | i < |src| && src[i].Include? && t in TemplateOf(src[i], lib) && d in t.needs
      ensures Declared(TemplateOf(src[i], lib), d)
    {
      assert TemplateAccepted(src, lib, i);
    }
  }

  // ---------------------------------------------------------------- what an empty template costs

  /** The path leaves an include that is expanded to nothing. */
  ghost predicate ThroughEmpty(src: seq<SourceStep>, lib: Library, p: seq<Name>) {
    exists k: nat, i: nat :: k < |p| - 1 && i < |src| && src[i].name == p[k] && !Live(src, lib, i)
  }

  /** The trimmed outline has exactly the paths that avoid those includes. */
  lemma {:induction false} TrimmedPaths(src: seq<SourceStep>, lib: Library, p: seq<Name>, a: Name, b: Name)
    requires DistinctNames(Outline(src))
    ensures PathFromTo(Trimmed(src, lib), p, a, b) <==> PathFromTo(Outline(src), p, a, b) && !ThroughEmpty(src, lib, p)
  {
    var o, t := Outline(src), Trimmed(src, lib);
    if PathFromTo(t, p, a, b) {
      forall k: nat | k < |p| - 1
        ensures Edge(o, p[k], p[k + 1])
        ensures forall i: nat :: i < |src| && src[i].name == p[k] ==> Live(src, lib, i)
      {
        assert Edge(t, p[k], p[k + 1]);
        TrimmedEdgeItem(src, lib, p[k], p[k + 1]);
      }
    }
    if PathFromTo(o, p, a, b) && !ThroughEmpty(src, lib, p) {
      forall k: nat | k < |p| - 1
        ensures Edge(t, p[k], p[k + 1])
      {
        assert Edge(o, p[k], p[k + 1]);
        var s :| s in o && s.name == p[k] && p[k + 1] in s.needs;
        var i: nat :| i < |src| && o[i] == s;
        assert Live(src, lib, i);
        assert t[i] in t;
      }
    }
  }

  lemma {:induction false} TrimmedEdgeItem(src: seq<SourceStep>, lib: Library, a: Name, b: Name)
    requires DistinctNames(Outline(src)) && Edge(Trimmed(src, lib), a, b)
    ensures Edge(Outline(src), a, b)
    ensures forall i: nat :: i < |src| && src[i].name == a ==> Live(src, lib, i)
  {
    var t := Trimmed(src, lib);
    var s :| s in t && s.name == a && b in s.needs;
    var m: nat :| m < |src| && t[m] == s;
    assert Outline(src)[m] in Outline(src);
    forall i: nat | i < |src| && src[i].name == a
      ensures Live(src, lib, i)
    {
      SamePosition(Outline(src), i, m);
    }
  }

  /** The order between two items that are expanded to something is lost exactly when every path
      between them goes through an include that is expanded to nothing. */
  lemma {:induction false} OrderLostIffThroughEmpty(src: seq<SourceStep>, lib: Library, i: nat, j: nat)
    requires Sound(src, lib) && i < |src| && j < |src| && i != j && Live(src, lib, i) && Live(src, lib, j)
    ensures !SomeNeedsSome(src, lib, i, j) <==>
      forall p :: PathFromTo(Outline(src), p, src[i].name, src[j].name) ==> ThroughEmpty(src, lib, p)
  {
    OrderPreserved(src, lib, i, j);
    forall p
      ensures PathFromTo(Trimmed(src, lib), p, src[i].name, src[j].name) <==>
        PathFromTo(Outline(src), p, src[i].name, src[j].name) && !ThroughEmpty(src, lib, p)
    {
      TrimmedPaths(src, lib, p, src[i].name, src[j].name);
    }
  }

  /** Cycles of the source are hidden from validation exactly when each of them goes through an
      include that is expanded to nothing. */
  lemma {:induction false} CyclesHiddenIffThroughEmpty(src: seq<SourceStep>, lib: Library)
    requires Sound(src, lib)
    ensures Accepted(Expansion(src, lib)) <==>
      forall n, p :: PathFromTo(Outline(src), p, n, n) ==> ThroughEmpty(src, lib, p)
  {
    SoundHasNoStray(src, lib);
    AcceptedIffSourceAccepted(src, lib);
    TrimmedCycles(src, lib);
  }

  lemma {:induction false} TrimmedCycles(src: seq<SourceStep>, lib: Library)
    requires DistinctNames(Outline(src))
    ensures Acyclic(Trimmed(src, lib)) <==> forall n, p :: PathFromTo(Outline(src), p, n, n) ==> ThroughEmpty(src, lib, p)
  {
    forall n, p
      ensures PathFromTo(Trimmed(src, lib), p, n, n) <==> PathFromTo(Outline(src), p, n, n) && !ThroughEmpty(src, lib, p)
    {
      TrimmedPaths(src, lib, p, n, n);
    }
    if !Acyclic(Trimmed(src, lib)) {
      var n :| Reaches(Trimmed(src, lib), n, n);
      var p :| PathFromTo(Trimmed(src, lib), p, n, n);
      assert PathFromTo(Outline(src), p, n, n) && !ThroughEmpty(src, lib, p);
    } else {
      forall n, p | PathFromTo(Outline(src), p, n, n)
        ensures ThroughEmpty(src, lib, p)
      {
        assert !Reaches(Trimmed(src, lib), n, n);
      }
    }
  }

  /** Without empty templates nothing is trimmed: order and cycles are those of the source. */
  lemma NothingTrimmed(src: seq<SourceStep>, lib: Library)
    requires NonEmptyTemplates(src, lib)
    ensures forall a, b :: Reaches(Trimmed(src, lib), a, b) <==> Reaches(Outline(src), a, b)
  {
    assert Trimmed(src, lib) == Outline(src);
  }

  const EMPTY_LIBRARY: Library := (path: string) => Parsed([])
  const ONE_STEP_LIBRARY: Library := (path: string) => Parsed([Step("s", "shell", [])])

  lemma TwoNeedsEachOther(src: seq<SourceStep>)
    requires |src| == 2 && src[1].name in src[0].needs && src[0].name in src[1].needs
    ensures !Acyclic(Outline(src))
  {
    var o := Outline(src);
    assert o[0] in o && o[1] in o;
    EdgeFrom(o, o[0], o[1].name);
    EdgeFrom(o, o[1], o[0].name);
    ReachesTrans(o, o[0].name, o[1].name, o[0].name);
  }

  lemma FlattenTwo(pieces: seq<seq<Step>>)
    requires |pieces| == 2
    ensures FlattenAll(pieces) == pieces[0] + pieces[1]
  {
    assert Flatten(pieces, 0) == [] && Flatten(pieces, 1) == pieces[0];
  }

  lemma TwoPieces(src: seq<SourceStep>, lib: Library)
    requires |src| == 2
    ensures Expansion(src, lib) == Piece(src, lib, 0) + Piece(src, lib, 1)
  {
    var pieces := Pieces(src, lib);
    assert pieces[0] == Piece(src, lib, 0) && pieces[1] == Piece(src, lib, 1);
    FlattenTwo(pieces);
  }

  lemma RelinkOne(d: Name, leaves: Leaves)
    ensures Relink([d], leaves) == if d in leaves then leaves[d] else [d]
  {
    assert [d][..0] == [];
  }

  lemma LonelyStep(s: Step)
    requires s.needs == []
    ensures Accepted([s])
  {
    TopologicalIsAcyclic([s]);
  }

  lemma ChainOfTwo(order: seq<Step>)
    requires |order| == 2 && order[0].needs == [] && order[1].needs == [order[0].name] && order[0].name != order[1].name
    ensures Accepted(order)
  {
    assert order[..1][0].name == order[0].name;
    TopologicalIsAcyclic(order);
  }

  lemma FlattenThree(pieces: seq<seq<Step>>)
    requires |pieces| == 3
    ensures FlattenAll(pieces) == pieces[0] + pieces[1] + pieces[2]
  {
    assert Flatten(pieces, 0) == [] && Flatten(pieces, 1) == pieces[0] && Flatten(pieces, 2) == pieces[0] + pieces[1];
  }

  lemma NoNeedsNoOrder(steps: seq<Step>, a: Name, b: Name)
    requires forall s :: s in steps ==> s.needs == []
    ensures !Reaches(steps, a, b)
  {
    if p :| PathFromTo(steps, p, a, b) { ReachesFirst(steps, p, a, b); }
  }

  /** "b" needs "a" by way of an include of an empty template; after expansion it does not. */
  lemma EmptyTemplateLosesOrder(src: seq<SourceStep>)
    requires src == [Plain("a", [], "shell"), Include("x", ["a"], "t"), Plain("b", ["x"], "shell")]
    ensures Reaches(Outline(src), "b", "a") && !SomeNeedsSome(src, EMPTY_LIBRARY, 2, 0)
    ensures Expansion(src, EMPTY_LIBRARY) == [Step("a", "shell", []), Step("b", "shell", [])]
  {
    var o, pieces := Outline(src), Pieces(src, EMPTY_LIBRARY);
    assert o[2] in o && o[1] in o;
    EdgeFrom(o, o[2], "x");
    EdgeFrom(o, o[1], "a");
    ReachesTrans(o, "b", "x", "a");
    LeavesLookup(src, EMPTY_LIBRARY, 2, 1);
    RelinkOne("x", LeavesUpTo(src, EMPTY_LIBRARY, 2));
    FlattenThree(pieces);
    assert Expansion(src, EMPTY_LIBRARY) == [Step("a", "shell", []), Step("b", "shell", [])];
    forall x, y
      ensures !Reaches(Expansion(src, EMPTY_LIBRARY), x, y)
    {
      NoNeedsNoOrder(Expansion(src, EMPTY_LIBRARY), x, y);
    }
  }

  /** With an empty template even a source cycle passes validation. */
  lemma EmptyTemplateHidesCycle(src: seq<SourceStep>)
    requires src == [Include("x", ["b"], "t"), Plain("b", ["x"], "shell")]
    ensures AllLoad(src, EMPTY_LIBRARY) && AllResolvable(src, EMPTY_LIBRARY)
    ensures !Acyclic(Outline(src)) && Accepted(Expansion(src, EMPTY_LIBRARY))
  {
    TwoNeedsEachOther(src);
    assert src[0].name == "x" && src[1].name == "b";
    TwoPieces(src, EMPTY_LIBRARY);
    LeavesLookup(src, EMPTY_LIBRARY, 1, 0);
    RelinkOne("x", LeavesUpTo(src, EMPTY_LIBRARY, 1));
    assert Expansion(src, EMPTY_LIBRARY) == [Step("b", "shell", [])];
    LonelyStep(Step("b", "shell", []));
  }

  /** A need that spells the name of an expanded step is accepted although the phase as
      written has no such step. */
  lemma StrayReferenceAccepted(src: seq<SourceStep>)
    requires src == [Include("x", [], "t"), Plain("b", ["x.s"], "shell")]
    ensures Accepted(Expansion(src, ONE_STEP_LIBRARY)) && !AllResolvable(src, ONE_STEP_LIBRARY)
  {
    assert "x.s" in src[1].needs;
    assert !Resolvable(src, 1, "x.s");
    LeavesKeys(src, ONE_STEP_LIBRARY, 1, "x.s");
    RelinkOne("x.s", LeavesUpTo(src, ONE_STEP_LIBRARY, 1));
    var order := [Step("x.s", "shell", []), Step("b", "shell", ["x.s"])];
    assert Qualified("x", "s") == "x.s";
    TwoPieces(src, ONE_STEP_LIBRARY);
    assert Expansion(src, ONE_STEP_LIBRARY) == order;
    ChainOfTwo(order);
  }
}
