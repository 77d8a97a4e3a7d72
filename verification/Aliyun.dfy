/** internal/plugins/dns_record/aliyun.go: EnsureRecords.

    This reconciler deletes records with a wrong value and creates one for each missing address,
    so that the values served end up exact.  The query for existing records matches the host part
    loosely; the first loop therefore looks at every listed record and decides its fate: records
    of other hosts and blank ones are skipped, right ones are remembered, wrong ones go.  The
    proof keeps the sets of remembered values and deleted records next to the loop and shows that
    over the whole listing they are what the records themselves say. */
module Aliyun {
  import opened Steps
  import opened Text
  import opened DnsZone

  datatype Owner = Owner(domain: string, rr: string)

  type Records = map<nat, Record<Owner>>

  // ---------------------------------------------------------------- domain names

  function Dots(s: string): nat { if s == [] then 0 else Dots(s[1..]) + if s[0] == '.' then 1 else 0 }

  function UpToDot(s: string): (part: string)
    ensures |part| <= |s|
  {
    if s == [] || s[0] == '.' then [] else [s[0]] + UpToDot(s[1..])
  }

  /** The host part and the rest; a name with fewer than two dots has no host part. */
  function ParseDomain(domain: string): Owner {
    var rr := UpToDot(domain);
    if Dots(domain) < 2 || |rr| == |domain| then Owner(domain, "") else Owner(domain[|rr| + 1..], rr)
  }

  lemma DomainParts(domain: string)
    ensures var o := ParseDomain(domain);
      if Dots(domain) < 2 then o == Owner(domain, "")
      else domain == o.rr + "." + o.domain && '.' !in o.rr && '.' in o.domain
  {
    if Dots(domain) >= 2 {
      FirstDot(domain);
      CutAt(domain, |UpToDot(domain)|);
      HasDot(domain[|UpToDot(domain)| + 1..]);
    }
  }

  lemma FirstDot(s: string)
    requires Dots(s) > 0
    ensures |UpToDot(s)| < |s| && s[|UpToDot(s)|] == '.' && UpToDot(s) == s[..|UpToDot(s)|] && '.' !in UpToDot(s)
    ensures Dots(s[|UpToDot(s)| + 1..]) == Dots(s) - 1
  {
  }

  lemma HasDot(s: string)
    requires Dots(s) > 0
    ensures '.' in s
  {
  }

  lemma CutAt(s: string, k: nat)
    requires k < |s| && s[k] == '.'
    ensures s == s[..k] + "." + s[k + 1..]
  {
  }

  // ---------------------------------------------------------------- the reconciler

  predicate At(s: string, part: string, k: nat) { k + |part| <= |s| && s[k..k + |part|] == part }

  predicate Contains(s: string, part: string) { exists k :: 0 <= k <= |s| && At(s, part, k) }

  /** The records the keyword query returns, in some order: their host part contains the keyword. */
  method DescribeRecords(zone: Zone<Owner>, o: Owner, kind: string) returns (listed: seq<nat>)
    ensures Distinct(listed) && forall id :: id in listed ==> id in zone.records && zone.records[id].kind == kind
    ensures forall id :: id in Matching(zone.records, o, kind) <==> id in listed && zone.records[id].name == o
    ensures forall id :: id in listed ==> (zone.records[id].name.rr == o.rr <==> zone.records[id].name == o)
  {
    assert Contains(o.rr, o.rr) by { assert At(o.rr, o.rr, 0); }
    var ids := set id | id in zone.records && zone.records[id].name.domain == o.domain && zone.records[id].kind == kind
        && Contains(zone.records[id].name.rr, o.rr);
    listed := InSomeOrder(ids);
  }

  /** What is done with one listed record. */
  datatype Fate = Skipped | Right(value: string) | ToDelete

  function FateOf(rec: Record<Owner>, o: Owner, ips: seq<string>): Fate {
    if rec.name.rr != o.rr || TrimSpace(rec.content) == "" then Skipped
    else if TrimSpace(rec.content) in ips then Right(TrimSpace(rec.content))
    else ToDelete
  }

  ghost function UsedBy(records: Records, listed: seq<nat>, o: Owner, ips: seq<string>): set<string>
    requires forall id :: id in listed ==> id in records
  {
    set id | id in listed && FateOf(records[id], o, ips).Right? :: FateOf(records[id], o, ips).value
  }

  ghost function DeletedBy(records: Records, listed: seq<nat>, o: Owner, ips: seq<string>): set<nat>
    requires forall id :: id in listed ==> id in records
  {
    set id | id in listed && FateOf(records[id], o, ips).ToDelete?
  }

  lemma OneMore(records: Records, listed: seq<nat>, i: nat, o: Owner, ips: seq<string>)
    requires i < |listed| && Distinct(listed) && forall id :: id in listed ==> id in records
    ensures var fate := FateOf(records[listed[i]], o, ips);
      var used, deleted := UsedBy(records, listed[..i], o, ips), DeletedBy(records, listed[..i], o, ips);
      && UsedBy(records, listed[..i + 1], o, ips) == used + (if fate.Right? then {fate.value} else {})
      && DeletedBy(records, listed[..i + 1], o, ips) == deleted + (if fate.ToDelete? then {listed[i]} else {})
      && listed[i] !in deleted
  {
    assert listed[..i + 1] == listed[..i] + [listed[i]];
  }

  lemma AllOfThem(records: Records, listed: seq<nat>, o: Owner, kind: string, ips: seq<string>)
    requires GoodIps(ips)
    requires forall id :: id in listed ==> id in records && (records[id].name.rr == o.rr <==> records[id].name == o)
    requires forall id :: id in Matching(records, o, kind) <==> id in listed && records[id].name == o
    ensures forall ip :: ip in UsedBy(records, listed, o, ips) <==> ip in ips && Served(records, o, kind, ip)
    ensures DeletedBy(records, listed, o, ips) == Wrong(records, o, kind, ips)
  {
    forall ip | ip in UsedBy(records, listed, o, ips)
      ensures ip in ips && Served(records, o, kind, ip)
    {
      var id :| id in listed && FateOf(records[id], o, ips) == Right(ip);
      assert Carries(records, id, o, kind, ip);
    }
    forall ip | ip in ips && Served(records, o, kind, ip)
      ensures ip in UsedBy(records, listed, o, ips)
    {
      var id :| Carries(records, id, o, kind, ip);
      assert id in listed && FateOf(records[id], o, ips) == Right(ip);
    }
  }

  /** What is done with each listed record. */
  ghost function Fates(records: Records, listed: seq<nat>, o: Owner, ips: seq<string>): (fates: seq<Fate>)
    requires forall id :: id in listed ==> id in records
    ensures |fates| == |listed| && forall k :: 0 <= k < |fates| ==> fates[k] == FateOf(records[listed[k]], o, ips)
  {
    seq(|listed|, k requires 0 <= k < |listed| => FateOf(records[listed[k]], o, ips))
  }

  ghost function UsedUpTo(fates: seq<Fate>, i: nat): set<string>
    requires i <= |fates|
  {
    if i == 0 then {}
    else if fates[i - 1].Right? then UsedUpTo(fates, i - 1) + {fates[i - 1].value}
    else UsedUpTo(fates, i - 1)
  }

  ghost function DeletedUpTo(listed: seq<nat>, fates: seq<Fate>, i: nat): set<nat>
    requires i <= |listed| == |fates|
  {
    if i == 0 then {}
    else if fates[i - 1].ToDelete? then DeletedUpTo(listed, fates, i - 1) + {listed[i - 1]}
    else DeletedUpTo(listed, fates, i - 1)
  }

  lemma UpToNext(listed: seq<nat>, fates: seq<Fate>, i: nat)
    requires i < |listed| == |fates|
    ensures UsedUpTo(fates, i + 1) == if fates[i].Right? then UsedUpTo(fates, i) + {fates[i].value} else UsedUpTo(fates, i)
    ensures DeletedUpTo(listed, fates, i + 1) ==
      if fates[i].ToDelete? then DeletedUpTo(listed, fates, i) + {listed[i]} else DeletedUpTo(listed, fates, i)
  {
  }

  lemma {:induction false} UpTo(records: Records, listed: seq<nat>, i: nat, o: Owner, ips: seq<string>)
    requires i <= |listed| && Distinct(listed) && forall id :: id in listed ==> id in records
    ensures var fates := Fates(records, listed, o, ips);
      UsedUpTo(fates, i) == UsedBy(records, listed[..i], o, ips) && DeletedUpTo(listed, fates, i) == DeletedBy(records, listed[..i], o, ips)
  {
    if i == 0 {
    } else {
      UpTo(records, listed, i - 1, o, ips);
      OneMore(records, listed, i - 1, o, ips);
    }
  }

  lemma {:induction false} DeletedAmong(listed: seq<nat>, fates: seq<Fate>, i: nat, j: nat)
    requires i <= j <= |listed| == |fates| && Distinct(listed)
    ensures DeletedUpTo(listed, fates, i) <= DeletedUpTo(listed, fates, j)
    ensures forall k :: j <= k < |listed| ==> listed[k] !in DeletedUpTo(listed, fates, j)
  {
    if j > 0 { DeletedAmong(listed, fates, if i < j then i else i - 1, j - 1); }
  }

  /** A record still to be deleted is not among the deleted ones, so there is one more in all. */
  lemma NotYetDeleted(listed: seq<nat>, fates: seq<Fate>, i: nat)
    requires i < |listed| == |fates| && Distinct(listed)
    ensures DeletedUpTo(listed, fates, i) <= DeletedUpTo(listed, fates, |listed|)
    ensures listed[i] !in DeletedUpTo(listed, fates, i)
    ensures fates[i].ToDelete? ==> |DeletedUpTo(listed, fates, i)| < |DeletedUpTo(listed, fates, |listed|)|
  {
    DeletedAmong(listed, fates, i, i);
    DeletedAmong(listed, fates, i, |listed|);
    DeletedAmong(listed, fates, i + 1, |listed|);
    if fates[i].ToDelete? { MoreFits(DeletedUpTo(listed, fates, i), listed[i], DeletedUpTo(listed, fates, |listed|)); }
  }

  lemma MoreFits(a: set<nat>, x: nat, b: set<nat>)
    requires a <= b && x in b && x !in a
    ensures |a| < |b|
  {
    assert b == a + {x} + (b - a - {x});
  }

  /** Lines 77-95: one listed record is skipped, found right, or deleted. */
  method Judge(zone: Zone<Owner>, id: nat, o: Owner, ips: seq<string>) returns (r: Result<Fate, DnsError>)
    requires zone.Valid() && id in zone.records
    modifies zone
    ensures zone.Valid() && zone.nextId == old(zone.nextId)
    ensures var fate := FateOf(old(zone.records)[id], o, ips);
      if fate.ToDelete? && old(zone.allowed) == 0 then
        r == Err(WriteFailed) && zone.records == old(zone.records) && zone.allowed == 0
      else if fate.ToDelete? then
        r == Ok(fate) && zone.records == old(zone.records) - {id} && zone.allowed == old(zone.allowed) - 1
      else
        r == Ok(fate) && zone.records == old(zone.records) && zone.allowed == old(zone.allowed)
  {
    var rec := zone.records[id];
    if rec.name.rr != o.rr { return Ok(Skipped); }
    var value := TrimSpace(rec.content);
    if value == "" { return Ok(Skipped); }
    if value in ips { return Ok(Right(value)); }
    var ok := zone.Delete(id);
    if !ok { return Err(WriteFailed); }
    return Ok(ToDelete);
  }

  lemma MinusMore(records: Records, deleted: set<nat>, id: nat)
    ensures (records - deleted) - {id} == records - (deleted + {id})
  {
  }

  /** Lines 75-96: records with a wrong value are deleted; `used` collects the values that are right. */
  method DeleteListed(zone: Zone<Owner>, listed: seq<nat>, o: Owner, ips: seq<string>, ghost fates: seq<Fate>)
    returns (r: Result<(), DnsError>, used: set<string>, ghost deleted: set<nat>)
    requires zone.Valid() && Distinct(listed) && forall id :: id in listed ==> id in zone.records
    requires fates == Fates(zone.records, listed, o, ips)
    modifies zone
    ensures zone.Valid() && zone.nextId == old(zone.nextId)
    ensures deleted <= DeletedUpTo(listed, fates, |listed|) && zone.records == old(zone.records) - deleted
    ensures r.Ok? ==> deleted == DeletedUpTo(listed, fates, |listed|) && used == UsedUpTo(fates, |listed|)
    ensures r.Ok? ==> zone.allowed == old(zone.allowed) - |deleted|
    ensures r.Ok? <==> |DeletedUpTo(listed, fates, |listed|)| <= old(zone.allowed)
    ensures r.Err? ==> r.error == WriteFailed
  {
    ghost var before := zone.records;
    used, deleted := {}, {};
    assert zone.records - {} == zone.records;
    for i := 0 to |listed|
      invariant zone.Valid() && zone.nextId == old(zone.nextId) && zone.records == before - deleted
      invariant used == UsedUpTo(fates, i) && deleted == DeletedUpTo(listed, fates, i)
      invariant zone.allowed == old(zone.allowed) - |deleted|
    {
      var id := listed[i];
      assert id in listed;
      NotYetDeleted(listed, fates, i);
      var judged := Judge(zone, id, o, ips);
      assert FateOf(before[id], o, ips) == fates[i];
      if judged.Err? { return Err(judged.error), used, deleted; }
      assert judged.value == fates[i];
      UpToNext(listed, fates, i);
      match judged.value {
        case Skipped =>
        case Right(value) => used := used + {value};
        case ToDelete =>
          MinusMore(before, deleted, id);
          deleted := deleted + {id};
      }
    }
    return Ok(()), used, deleted;
  }

  method DeleteWrong(zone: Zone<Owner>, o: Owner, kind: string, ips: seq<string>)
    returns (r: Result<(), DnsError>, used: set<string>, ghost deleted: set<nat>)
    requires zone.Valid() && GoodIps(ips)
    modifies zone
    ensures zone.Valid() && zone.nextId == old(zone.nextId)
    ensures deleted <= Wrong(old(zone.records), o, kind, ips) && zone.records == old(zone.records) - deleted
    ensures r.Ok? <==> |Wrong(old(zone.records), o, kind, ips)| <= old(zone.allowed)
    ensures r.Ok? ==> deleted == Wrong(old(zone.records), o, kind, ips) && zone.allowed == old(zone.allowed) - |deleted|
    ensures r.Ok? ==> forall ip :: ip in used <==> ip in ips && Served(old(zone.records), o, kind, ip)
    ensures r.Err? ==> r.error == WriteFailed
  {
    var listed := DescribeRecords(zone, o, kind);
    AllOfThem(zone.records, listed, o, kind, ips);
    UpTo(zone.records, listed, |listed|, o, ips);
    assert listed[..|listed|] == listed;
    r, used, deleted := DeleteListed(zone, listed, o, ips, Fates(zone.records, listed, o, ips));
  }

  /** Lines 98-113: a record is added for every address without one. */
  method AddMissing(zone: Zone<Owner>, o: Owner, kind: string, ips: seq<string>, used: set<string>)
    returns (r: Result<(), DnsError>, ghost gained: seq<string>)
    requires zone.Valid() && Distinct(ips)
    modifies zone
    ensures zone.Valid() && Distinct(gained) && Elements(gained) <= Elements(ips) - used
    ensures zone.records == Grown(old(zone.records), o, kind, old(zone.nextId), gained)
    ensures var n := |Elements(ips) - used|;
      && (r.Ok? <==> n <= old(zone.allowed))
      && (r.Ok? ==> |gained| == n && Elements(gained) == Elements(ips) - used && zone.allowed == old(zone.allowed) - n)
    ensures r.Err? ==> r.error == WriteFailed
  {
    gained := [];
    for i := 0 to |ips|
      invariant zone.Valid() && zone.nextId == old(zone.nextId) + |gained|
      invariant Distinct(gained) && Elements(gained) == Elements(ips[..i]) - used
      invariant zone.allowed == old(zone.allowed) - |gained|
      invariant zone.records == Grown(old(zone.records), o, kind, old(zone.nextId), gained)
    {
      var ip := ips[i];
      assert ips[..i + 1] == ips[..i] + [ip];
      ElementsSnoc(ips[..i], ip);
      if ip in used { continue; }
      assert ip !in ips[..i];
      Gain(gained, ip, Elements(ips) - used);
      var ok := zone.Create(Record(o, kind, ip));
      if !ok { return Err(WriteFailed), gained; }
      GrownSnoc(old(zone.records), o, kind, old(zone.nextId), gained, ip);
      gained := gained + [ip];
    }
    assert ips[..|ips|] == ips;
    DistinctCount(gained);
    return Ok(()), gained;
  }

  /** Only wrong records disappear and only records for missing addresses appear. */
  ghost predicate OnlyReplaces(before: Records, after: Records, o: Owner, kind: string, ips: seq<string>) {
    && (forall id :: id in before && id !in Wrong(before, o, kind, ips) ==> id in after)
    && (forall id :: id in before && id in after ==> after[id] == before[id])
    && forall id :: id in after && id !in before ==>
      after[id] == Record(o, kind, after[id].content) && after[id].content in Missing(before, o, kind, ips)
  }

  lemma Replaced(before: Records, mid: Records, after: Records, o: Owner, kind: string, ips: seq<string>,
                 deleted: set<nat>, first: nat, gained: seq<string>)
    requires GoodIps(ips) && forall id :: id in before ==> id < first
    requires deleted <= Wrong(before, o, kind, ips) && mid == before - deleted
    requires Extended(mid, after, o, kind, first, gained) && Elements(gained) <= Missing(before, o, kind, ips)
    ensures OnlyReplaces(before, after, o, kind, ips)
  {
    forall id | id in after && id !in before
      ensures after[id] == Record(o, kind, after[id].content) && after[id].content in Missing(before, o, kind, ips)
    {
      assert gained[id - first] in Elements(gained);
    }
  }

  lemma ReplacedExactly(before: Records, mid: Records, after: Records, o: Owner, kind: string, ips: seq<string>,
                        first: nat, gained: seq<string>)
    requires GoodIps(ips) && forall id :: id in before ==> id < first
    requires mid == before - Wrong(before, o, kind, ips)
    requires Extended(mid, after, o, kind, first, gained) && Elements(gained) == Missing(before, o, kind, ips)
    ensures Exact(after, o, kind, ips)
  {
    forall ip | ip in ips
      ensures Served(after, o, kind, ip)
    {
      if Served(before, o, kind, ip) {
        var id :| Carries(before, id, o, kind, ip);
        assert Carries(after, id, o, kind, ip);
      } else {
        assert ip in Elements(gained);
        var k :| 0 <= k < |gained| && gained[k] == ip;
        assert Carries(after, first + k, o, kind, ip);
      }
    }
    forall id | id in Matching(after, o, kind)
      ensures id !in Wrong(after, o, kind, ips)
    {
      if id !in mid { assert gained[id - first] in Elements(gained); }
    }
  }

  lemma ReplacesSpare(before: Records, after: Records, o: Owner, kind: string, ips: seq<string>)
    requires OnlyReplaces(before, after, o, kind, ips)
    ensures Spares(before, after, o, kind, ips)
  {
  }

  /** On success the values served for this name and type are exactly the wanted ones, every wrong record
      was deleted and every missing one added once; when they already are, nothing is written. A run that
      fails has only removed wrong records and added missing addresses. */
  method EnsureRecords(zone: Zone<Owner>, domain: string, recordType: string, ips: seq<string>, reachable: bool)
    returns (r: Result<(), DnsError>)
    requires zone.Valid() && GoodIps(ips)
    modifies zone
    ensures zone.Valid() && OnlyReplaces(old(zone.records), zone.records, ParseDomain(domain), KindOrDefault(recordType), ips)
    ensures var o, kind := ParseDomain(domain), if recordType == "" then "A" else recordType;
      var writes := |Wrong(old(zone.records), o, kind, ips)| + |Missing(old(zone.records), o, kind, ips)|;
      && (r.Ok? <==> ips == [] || (o.rr != "" && reachable && writes <= old(zone.allowed)))
      && (r.Err? ==> r.error == if o.rr == "" then InvalidDomain else if !reachable then Unreachable else WriteFailed)
      && (r.Ok? && ips != [] ==> Exact(zone.records, o, kind, ips) && zone.allowed == old(zone.allowed) - writes)
      && (Exact(old(zone.records), o, kind, ips) ==> zone.records == old(zone.records))
      && Spares(old(zone.records), zone.records, o, kind, ips)
      && (r.Ok? && ips != [] ==> Exactly(zone.records, o, kind, ips))
    ensures ips == [] ==> zone.records == old(zone.records) && zone.allowed == old(zone.allowed)
  {
    if ips == [] { return Ok(()); }
    var o := ParseDomain(domain);
    assert o.rr != "" ==> o.domain != "" by { DomainParts(domain); }
    if o.rr == "" || o.domain == "" { return Err(InvalidDomain); }
    var kind := KindOrDefault(recordType);
    if !reachable { return Err(Unreachable); }
    ghost var before, first := zone.records, zone.nextId;
    var used;
    ghost var deleted;
    ghost var gained: seq<string> := [];
    r, used, deleted := DeleteWrong(zone, o, kind, ips);
    ghost var mid := zone.records;
    if r.Ok? {
      assert Elements(ips) - used == Missing(before, o, kind, ips);
      r, gained := AddMissing(zone, o, kind, ips, used);
    }
    GrownExtends(mid, o, kind, first, gained);
    Replaced(before, mid, zone.records, o, kind, ips, deleted, first, gained);
    if r.Ok? { ReplacedExactly(before, mid, zone.records, o, kind, ips, first, gained); }
    NothingToReplace(before, zone.records, o, kind, ips);
    ReplacesSpare(before, zone.records, o, kind, ips);
    ExactIsExactly(zone.records, o, kind, ips);
  }

  /** The values of this host and type, blank ones apart, are the wanted addresses. */
  ghost predicate Exactly(records: Records, o: Owner, kind: string, ips: seq<string>) {
    && (forall ip :: ip in ips ==>
          exists id :: id in records && records[id].name == o && records[id].kind == kind && TrimSpace(records[id].content) == ip)
    && forall id :: id in records && records[id].name == o && records[id].kind == kind ==>
         TrimSpace(records[id].content) == "" || TrimSpace(records[id].content) in ips
  }

  lemma ExactIsExactly(records: Records, o: Owner, kind: string, ips: seq<string>)
    ensures Exact(records, o, kind, ips) <==> Exactly(records, o, kind, ips)
  {
    AllServed(records, o, kind, ips);
    NoneWrong(records, o, kind, ips);
  }

  lemma NothingToReplace(before: Records, after: Records, o: Owner, kind: string, ips: seq<string>)
    requires OnlyReplaces(before, after, o, kind, ips)
    ensures Exact(before, o, kind, ips) ==> after == before
  {
  }

  /** A second call after one that succeeded succeeds, and writes nothing. */
  method EnsureTwice(zone: Zone<Owner>, domain: string, recordType: string, ips: seq<string>)
    returns (first: Result<(), DnsError>, second: Result<(), DnsError>, ghost between: Records, ghost left: nat)
    requires zone.Valid() && GoodIps(ips)
    modifies zone
    ensures zone.Valid()
    ensures first.Ok? ==> second.Ok? && zone.records == between && zone.allowed == left
    ensures first.Ok? && ips != [] ==> Exact(between, ParseDomain(domain), KindOrDefault(recordType), ips)
  {
    first := EnsureRecords(zone, domain, recordType, ips, true);
    between, left := zone.records, zone.allowed;
    second := EnsureRecords(zone, domain, recordType, ips, true);
  }
}
