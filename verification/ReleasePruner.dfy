/** internal/plugins/release_pruner/release_pruner.go: which release directories are kept.

    The names are sorted in place, newest first, by the comparator of `VersionOrder`, then all but
    the first few are removed.  Sorting is a permutation for any comparator, and in order whenever
    the comparator orders the names at all; which names survive is decided by the resulting rank
    and the target of the release link alone.  So keeping and removing is exact for all names, and
    what is kept is newest when the names can be ordered. */
module ReleasePruner {
  import opened Steps
  import opened Text
  import opened VersionOrder

  function Elements(s: seq<string>): set<string> { set x | x in s }

  ghost predicate Ascending(parse: Parser, s: seq<string>) {
    forall i, j :: 0 <= i < j < |s| ==> !Less(parse, s[j], s[i])
  }

  ghost predicate NewestFirst(parse: Parser, s: seq<string>) {
    forall i, j :: 0 <= i < j < |s| ==> !Less(parse, s[i], s[j])
  }

  ghost predicate Same(a: seq<string>, b: seq<string>) { multiset(a) == multiset(b) }

  // ---------------------------------------------------------------- sorting

  lemma InsertKeepsOrder(parse: Parser, s: seq<string>, p: nat, x: string, names: set<string>)
    requires p <= |s| && Ascending(parse, s) && TransitiveOn(parse, names) && x in names && forall y :: y in s ==> y in names
    requires forall k :: 0 <= k < p ==> !Less(parse, x, s[k])
    requires p < |s| ==> Less(parse, x, s[p])
    ensures Ascending(parse, s[..p] + [x] + s[p..])
  {
    var t := s[..p] + [x] + s[p..];
    forall k | p <= k < |s|
      ensures !Less(parse, s[k], x)
    {
      LessTotal(parse, s[p], s[k]);
      LessTotal(parse, s[k], x);
      assert s[p] in s && s[k] in s;
      if k > p { assert !Less(parse, s[k], s[p]); }
    }
    forall i, j | 0 <= i < j < |t|
      ensures !Less(parse, t[j], t[i])
    {
      if j == p {
      } else if i == p {
        assert t[j] == s[j - 1];
      } else {
        var i', j' := if i < p then i else i - 1, if j < p then j else j - 1;
        assert t[i] == s[i'] && t[j] == s[j'];
      }
    }
  }

  lemma InsertStep(parse: Parser, names: seq<string>, i: nat, sorted: seq<string>, p: nat)
    requires i < |names| && p <= |sorted| && Same(sorted, names[..i])
    requires TransitiveOn(parse, Elements(names)) ==> Ascending(parse, sorted)
    requires forall k :: 0 <= k < p ==> !Less(parse, names[i], sorted[k])
    requires p < |sorted| ==> Less(parse, names[i], sorted[p])
    ensures var after := sorted[..p] + [names[i]] + sorted[p..];
      Same(after, names[..i + 1]) && (TransitiveOn(parse, Elements(names)) ==> Ascending(parse, after))
  {
    SameMembers(sorted, names[..i]);
    if TransitiveOn(parse, Elements(names)) { InsertKeepsOrder(parse, sorted, p, names[i], Elements(names)); }
    InsertKeepsMembers(sorted, p, names[i]);
    assert names[..i + 1] == names[..i] + [names[i]];
  }

  /** Go's sort.Slice: some permutation, in order if the comparator orders the names at all. */
  method SortSlice(parse: Parser, names: seq<string>) returns (sorted: seq<string>)
    ensures Same(sorted, names)
    ensures TransitiveOn(parse, Elements(names)) ==> Ascending(parse, sorted)
  {
    sorted := [];
    for i := 0 to |names|
      invariant Same(sorted, names[..i])
      invariant TransitiveOn(parse, Elements(names)) ==> Ascending(parse, sorted)
    {
      var x := names[i];
      var p := 0;
      while p < |sorted| && !Less(parse, x, sorted[p])
        invariant p <= |sorted| && forall k :: 0 <= k < p ==> !Less(parse, x, sorted[k])
      {
        p := p + 1;
      }
      InsertStep(parse, names, i, sorted, p);
      sorted := sorted[..p] + [x] + sorted[p..];
    }
    assert names[..|names|] == names;
  }

  lemma InsertKeepsMembers(s: seq<string>, p: nat, x: string)
    requires p <= |s|
    ensures multiset(s[..p] + [x] + s[p..]) == multiset(s) + multiset{x}
  {
    assert s == s[..p] + s[p..];
  }

  lemma SameMembers(a: seq<string>, b: seq<string>)
    requires Same(a, b)
    ensures forall x :: x in a <==> x in b
  {
    assert forall x :: x in a <==> x in multiset(a);
    assert forall x :: x in b <==> x in multiset(b);
  }

  function Reversed(s: seq<string>): seq<string> { seq(|s|, i requires 0 <= i < |s| => s[|s| - 1 - i]) }

  lemma ReversedFacts(parse: Parser, s: seq<string>)
    ensures Same(Reversed(s), s)
    ensures Ascending(parse, s) ==> NewestFirst(parse, Reversed(s))
  {
    ReversedSame(s);
    var r := Reversed(s);
    if Ascending(parse, s) {
      forall i, j | 0 <= i < j < |r|
        ensures !Less(parse, r[i], r[j])
      {
        assert !Less(parse, s[|s| - 1 - i], s[|s| - 1 - j]);
      }
    }
  }

  lemma {:induction false} ReversedSame(s: seq<string>)
    ensures Same(Reversed(s), s)
  {
    if s == [] {
    } else {
      ReversedSame(s[1..]);
      assert Reversed(s) == Reversed(s[1..]) + [s[0]];
      assert s == [s[0]] + s[1..];
    }
  }

  lemma SameLength(a: seq<string>, b: seq<string>)
    requires Same(a, b)
    ensures |a| == |b|
  {
    assert |multiset(a)| == |multiset(b)|;
  }

  /** Lines 174-176. */
  method ReverseInPlace(dirs: array<string>)
    modifies dirs
    ensures dirs[..] == Reversed(old(dirs[..]))
  {
    var i, j := 0, dirs.Length - 1;
    while i < j
      invariant 0 <= i <= dirs.Length && j == dirs.Length - 1 - i
      invariant forall k :: 0 <= k < dirs.Length && (k < i || j < k) ==> dirs[k] == old(dirs[dirs.Length - 1 - k])
      invariant forall k :: i <= k <= j ==> dirs[k] == old(dirs[k])
    {
      dirs[i], dirs[j] := dirs[j], dirs[i];
      i, j := i + 1, j - 1;
    }
  }

  /** Sorted ascending and then reversed in place: newest first, if the names can be ordered. */
  method SortVersionDirs(parse: Parser, dirs: array<string>)
    modifies dirs
    ensures Same(dirs[..], old(dirs[..]))
    ensures TransitiveOn(parse, Elements(old(dirs[..]))) ==> NewestFirst(parse, dirs[..])
  {
    var sorted := SortSlice(parse, dirs[..]);
    SameLength(sorted, dirs[..]);
    forall k | 0 <= k < dirs.Length { dirs[k] := sorted[k]; }
    assert dirs[..] == sorted;
    ReverseInPlace(dirs);
    ReversedFacts(parse, sorted);
  }

  lemma SameHead(parse: Parser, a: seq<string>, b: seq<string>)
    requires NewestFirst(parse, a) && NewestFirst(parse, b) && Same(a, b) && a != [] && b != []
    ensures a[0] == b[0]
  {
    SameMembers(a, b);
    assert a[0] in a && b[0] in b;
    HeadIsNewest(parse, a, b[0]);
    HeadIsNewest(parse, b, a[0]);
    LessTotal(parse, a[0], b[0]);
  }

  lemma SameTail(a: seq<string>, b: seq<string>)
    requires Same(a, b) && a != [] && b != [] && a[0] == b[0]
    ensures Same(a[1..], b[1..])
  {
    assert a == [a[0]] + a[1..] && b == [b[0]] + b[1..];
    assert multiset(a[1..]) == multiset(a) - multiset{a[0]};
    assert multiset(b[1..]) == multiset(b) - multiset{b[0]};
  }

  /** The order is unique, so it does not depend on the sorting algorithm. */
  lemma {:induction false} NewestFirstUnique(parse: Parser, a: seq<string>, b: seq<string>)
    requires NewestFirst(parse, a) && NewestFirst(parse, b) && Same(a, b)
    ensures a == b
  {
    SameLength(a, b);
    if a != [] {
      SameHead(parse, a, b);
      SameTail(a, b);
      NewestFirstUnique(parse, a[1..], b[1..]);
      assert a == [a[0]] + a[1..] && b == [b[0]] + b[1..];
    }
  }

  lemma HeadIsNewest(parse: Parser, s: seq<string>, x: string)
    requires NewestFirst(parse, s) && x in s
    ensures !Less(parse, s[0], x)
  {
    var k :| 0 <= k < |s| && s[k] == x;
    LessTotal(parse, x, x);
  }

  // ---------------------------------------------------------------- keeping and removing

  predicate HasDots(name: string) { exists i :: 0 <= i < |name| - 1 && name[i] == '.' && name[i + 1] == '.' }

  predicate IsSafeDirName(name: string) { name != "" && name != "." && !HasDots(name) && '/' !in name }

  /** Lines 89-97: the listed names. */
  predicate Listed(name: string) { name != "" && name != "." && name != ".." }

  function NamesOf(lines: seq<string>): seq<string> {
    if lines == [] then []
    else
      var init, name := NamesOf(lines[..|lines| - 1]), TrimSpace(lines[|lines| - 1]);
      if Listed(name) then init + [name] else init
  }

  /** The `keep` first names of the order, and the one the link points to. */
  ghost predicate Kept(order: seq<string>, keep: nat, current: string, name: string) {
    name in order[..if keep < |order| then keep else |order|] || (current != "" && name == current)
  }

  ghost predicate ToRemove(order: seq<string>, keep: nat, current: string, name: string) {
    name in order && !Kept(order, keep, current, name) && IsSafeDirName(name)
  }

  class VersionsDir {
    var present: set<string>

    constructor (present: set<string>)
      ensures this.present == present
    {
      this.present := present;
    }

    /** `rm -rf`; its failure is ignored. */
    method Remove(name: string, works: string -> bool)
      modifies this
      ensures present == if works(name) then old(present) - {name} else old(present)
    {
      if works(name) { present := present - {name}; }
    }
  }

  /** The listed safe names that are not to be removed. */
  ghost function Spared(order: seq<string>, keep: nat, current: string): set<string> {
    set d | d in order && IsSafeDirName(d) && !ToRemove(order, keep, current, d)
  }

  lemma AtMostKeepAndOne(order: seq<string>, keep: nat, current: string)
    ensures |Spared(order, keep, current)| <= keep + 1
  {
    var first := order[..if keep < |order| then keep else |order|];
    ElementCount(first);
    assert Spared(order, keep, current) <= Elements(first) + {current};
    SubsetCount(Spared(order, keep, current), Elements(first) + {current});
  }

  lemma {:induction false} ElementCount(s: seq<string>)
    ensures |Elements(s)| <= |s|
  {
    if s == [] {
      assert Elements(s) == {};
    } else {
      var init := s[..|s| - 1];
      ElementCount(init);
      assert Elements(s) == Elements(init) + {s[|s| - 1]};
    }
  }

  ghost function SafeNames(names: set<string>): set<string> { set d | d in names && IsSafeDirName(d) }

  /** The listing names every safe directory there is, and every removal works. */
  ghost predicate Thorough(present: set<string>, names: seq<string>, works: string -> bool) {
    (forall d :: works(d)) && forall d :: d in SafeNames(present) ==> d in names
  }

  lemma FewAreLeft(before: set<string>, after: set<string>, names: seq<string>, order: seq<string>, keep: nat, current: string,
                   works: string -> bool)
    requires Same(order, names) && Thorough(before, names, works)
    requires forall d :: d in after <==> d in before && !(ToRemove(order, keep, current, d) && works(d))
    ensures |SafeNames(after)| <= keep + 1
  {
    SameMembers(order, names);
    AtMostKeepAndOne(order, keep, current);
    assert SafeNames(after) <= Spared(order, keep, current);
    SubsetCount(SafeNames(after), Spared(order, keep, current));
  }

  lemma {:induction false} ListedNames(lines: seq<string>, name: string)
    ensures name in NamesOf(lines) <==>
      name != "" && name != "." && name != ".." && exists k :: 0 <= k < |lines| && name == TrimSpace(lines[k])
  {
    if lines != [] {
      var init, last := lines[..|lines| - 1], lines[|lines| - 1];
      ListedNames(init, name);
      assert lines == init + [last];
    }
  }

  /** What is removed: not the link target, not one of the first `keep`, and nothing unsafe. */
  lemma WhatGoes(order: seq<string>, keep: nat, current: string)
    ensures forall d :: d in order ==> (ToRemove(order, keep, current, d) <==>
      && d != current && d != "" && d != "." && '/' !in d && (forall k :: 0 <= k < |d| - 1 ==> d[k] != '.' || d[k + 1] != '.')
      && forall k :: 0 <= k < keep && k < |order| ==> d != order[k])
  {
    var top := if keep < |order| then keep else |order|;
    forall d | d in order
      ensures HasDots(d) <==> !(forall k :: 0 <= k < |d| - 1 ==> d[k] != '.' || d[k + 1] != '.')
      ensures d in order[..top] <==> !(forall k :: 0 <= k < keep && k < |order| ==> d != order[k])
    {
      if k :| 0 <= k < keep && k < |order| && d == order[k] { assert order[..top][k] == d; }
    }
  }

  /** No version that is removed is newer than one that is kept by rank. */
  ghost predicate NoneNewer(parse: Parser, order: seq<string>, keep: nat, current: string) {
    forall d, k, v, w ::
      (ToRemove(order, keep, current, d) && 0 <= k < keep && k < |order| && StandsFor(parse, d, v) && StandsFor(parse, order[k], w)) ==>
      !Precedes(w, v)
  }

  lemma RemovedNotNewer(parse: Parser, order: seq<string>, keep: nat, current: string)
    requires NewestFirst(parse, order)
    ensures NoneNewer(parse, order, keep, current)
  {
    forall d, k, v, w | ToRemove(order, keep, current, d) && 0 <= k < keep && k < |order| &&
        StandsFor(parse, d, v) && StandsFor(parse, order[k], w)
      ensures !Precedes(w, v)
    {
      RemovedAreOlder(parse, order, keep, current, d, k);
      LessOfVersions(parse, d, order[k], v, w);
      PrecedesTotal(v, w);
    }
  }

  /** Lines 85-136 for one host. Exactly the safe names that are neither among the first `keep` nor the
      link target are removed, each of them once, so far as `rm` works; the rest stays.  A safe name has
      no slash and no two dots in a row.  At most `keep` + 1 safe names are left if the listing is complete
      and every `rm` works. */
  method Prune(dir: VersionsDir, parse: Parser, lines: seq<string>, keep: int, current: string, works: string -> bool)
    returns (r: Result<(), ()>, ghost order: seq<string>)
    modifies dir
    ensures r.Err? <==> keep < 1
    ensures r.Err? ==> dir.present == old(dir.present)
    ensures r.Ok? ==> Same(order, NamesOf(lines))
    ensures r.Ok? && TransitiveOn(parse, Elements(NamesOf(lines))) ==> NewestFirst(parse, order) && NoneNewer(parse, order, keep, current)
    ensures r.Ok? ==> forall d :: d in dir.present <==> d in old(dir.present) && !(ToRemove(order, keep, current, d) && works(d))
    ensures r.Ok? ==> forall d :: d in old(dir.present) && d in order && works(d) ==> (d !in dir.present <==>
      && d != current && d != "" && d != "." && '/' !in d && (forall k :: 0 <= k < |d| - 1 ==> d[k] != '.' || d[k + 1] != '.')
      && forall k :: 0 <= k < keep && k < |order| ==> d != order[k])
    ensures r.Ok? && Thorough(old(dir.present), NamesOf(lines), works) ==> |SafeNames(dir.present)| <= keep + 1
  {
    order := [];
    if keep < 1 { return Err(()), order; }
    var names: seq<string> := [];
    for i := 0 to |lines|
      invariant names == NamesOf(lines[..i])
    {
      var name := TrimSpace(lines[i]);
      assert lines[..i + 1][..i] == lines[..i];
      if name == "" || name == "." || name == ".." { continue; }
      names := names + [name];
    }
    assert lines[..|lines|] == lines;
    var dirs := new string[|names|](k requires 0 <= k < |names| => names[k]);
    assert dirs[..] == names;
    SortVersionDirs(parse, dirs);
    order := dirs[..];
    RemoveOthers(dir, dirs[..], keep, current, works);
    WhatGoes(order, keep, current);
    if NewestFirst(parse, order) { RemovedNotNewer(parse, order, keep, current); }
    if Thorough(old(dir.present), names, works) {
      FewAreLeft(old(dir.present), dir.present, names, order, keep, current, works);
    }
    return Ok(()), order;
  }

  /** Lines 110-134. */
  method RemoveOthers(dir: VersionsDir, order: seq<string>, keep: nat, current: string, works: string -> bool)
    modifies dir
    ensures forall d :: d in dir.present <==> d in old(dir.present) && !(ToRemove(order, keep, current, d) && works(d))
  {
    var keepSet: set<string> := {};
    var i := 0;
    while i < keep && i < |order|
      invariant i <= keep && i <= |order| && forall d :: d in keepSet <==> d in order[..i]
    {
      keepSet := keepSet + {order[i]};
      i := i + 1;
    }
    if current != "" { keepSet := keepSet + {current}; }
    assert forall d :: d in keepSet <==> Kept(order, keep, current, d);
    for k := 0 to |order|
      invariant forall d :: d in dir.present <==> d in old(dir.present) && !(d in order[..k] && ToRemove(order, keep, current, d) && works(d))
    {
      var d := order[k];
      assert order[..k + 1] == order[..k] + [d];
      if d in keepSet { continue; }
      if !IsSafeDirName(d) { continue; }
      dir.Remove(d, works);
    }
    assert order[..|order|] == order;
  }

  /** The link target and the first `keep` names are never removed, and every removed name is older
      than each of these. */
  lemma RemovedAreOlder(parse: Parser, order: seq<string>, keep: nat, current: string, name: string, k: nat)
    requires NewestFirst(parse, order) && ToRemove(order, keep, current, name) && k < keep && k < |order|
    ensures name != order[k] && name != current && Less(parse, name, order[k])
  {
    var first := order[..if keep < |order| then keep else |order|];
    assert forall i :: 0 <= i < |first| ==> first[i] == order[i] && first[i] in first;
    var j :| 0 <= j < |order| && order[j] == name;
    assert |first| <= j;
    assert !Less(parse, order[k], order[j]);
    LessTotal(parse, name, order[k]);
  }
}
