/** internal/plugins/dns_record/cloudflare.go: EnsureRecords.

    The reconciler never deletes.  It first reads all records of the name and type, then turns
    records with a wrong value into records for addresses that nobody serves yet, and finally
    creates records for the addresses that are still missing.  The proof follows the two loops:
    `Turned` and `Grown` say what each of them has done to the records so far, `Applied` puts
    them together, and what the caller sees is read off from there: nothing that was served is
    lost, every address is served in the end, and as few records as possible are touched. */
module Cloudflare {
  import opened Steps
  import opened Text
  import opened DnsZone

  type Records = map<nat, Record<string>>

  predicate Supported(kind: string) { kind == "A" || kind == "AAAA" }

  function Min(a: nat, b: nat): nat { if a < b then a else b }

  /** The k-th wrong record now belongs to the k-th gained address; nothing else changed. */
  ghost predicate Repurposed(before: Records, after: Records, domain: string, kind: string, wrong: seq<nat>, gained: seq<string>) {
    && |gained| <= |wrong| && after.Keys == before.Keys
    && (forall id :: id in before && id !in wrong[..|gained|] ==> after[id] == before[id])
    && forall k :: 0 <= k < |gained| ==> wrong[k] in after && after[wrong[k]] == Record(domain, kind, gained[k])
  }

  lemma RepurposedMore(before: Records, after: Records, domain: string, kind: string, wrong: seq<nat>, gained: seq<string>, ip: string)
    requires Repurposed(before, after, domain, kind, wrong, gained) && Distinct(wrong)
    requires |gained| < |wrong| && wrong[|gained|] in before
    ensures Repurposed(before, after[wrong[|gained|] := Record(domain, kind, ip)], domain, kind, wrong, gained + [ip])
  {
    var j := |gained|;
    assert wrong[..j + 1] == wrong[..j] + [wrong[j]];
  }

  /** The k-th wrong record becomes a record for the k-th gained address. */
  ghost function Turned(before: Records, domain: string, kind: string, wrong: seq<nat>, gained: seq<string>): Records
    requires |gained| <= |wrong|
  {
    if gained == [] then before
    else
      var k := |gained| - 1;
      Turned(before, domain, kind, wrong, gained[..k])[wrong[k] := Record(domain, kind, gained[k])]
  }

  lemma TurnedSnoc(before: Records, domain: string, kind: string, wrong: seq<nat>, gained: seq<string>, ip: string)
    requires |gained| < |wrong|
    ensures Turned(before, domain, kind, wrong, gained + [ip]) ==
      Turned(before, domain, kind, wrong, gained)[wrong[|gained|] := Record(domain, kind, ip)]
  {
    assert (gained + [ip])[..|gained|] == gained;
  }

  lemma {:induction false} TurnedRepurposes(before: Records, domain: string, kind: string, wrong: seq<nat>, gained: seq<string>)
    requires |gained| <= |wrong| && Distinct(wrong) && forall id :: id in wrong ==> id in before
    ensures Repurposed(before, Turned(before, domain, kind, wrong, gained), domain, kind, wrong, gained)
  {
    if gained == [] {
    } else {
      var init, last := gained[..|gained| - 1], gained[|gained| - 1];
      assert gained == init + [last];
      TurnedRepurposes(before, domain, kind, wrong, init);
      TurnedSnoc(before, domain, kind, wrong, init, last);
      RepurposedMore(before, Turned(before, domain, kind, wrong, init), domain, kind, wrong, init, last);
    }
  }

  /** `done` is `satisfied` and the distinct `gained` addresses, all of them wanted. */
  ghost predicate Gained(wanted: set<string>, satisfied: set<string>, done: set<string>, gained: seq<string>) {
    && Distinct(gained) && done == satisfied + Elements(gained) && done <= wanted && satisfied !! Elements(gained)
    && |wanted - done| == |wanted - satisfied| - |gained|
  }

  lemma GainedMore(wanted: set<string>, satisfied: set<string>, done: set<string>, gained: seq<string>, ip: string)
    requires Gained(wanted, satisfied, done, gained) && ip in wanted - done
    ensures Gained(wanted, satisfied, done + {ip}, gained + [ip])
  {
    Gain(gained, ip, wanted);
    assert wanted - (done + {ip}) == (wanted - done) - {ip};
  }

  method TurnOne(zone: Zone<string>, domain: string, kind: string, id: nat, target: string, ghost wrong: seq<nat>,
                 ghost before: Records, ghost gained: seq<string>)
    returns (ok: bool)
    requires zone.Valid() && |gained| < |wrong| && id in before && id == wrong[|gained|] && before.Keys == zone.records.Keys
    requires zone.records == Turned(before, domain, kind, wrong, gained)
    modifies zone
    ensures zone.Valid() && zone.nextId == old(zone.nextId) && zone.records.Keys == old(zone.records).Keys
    ensures ok == (old(zone.allowed) > 0) && zone.allowed == if ok then old(zone.allowed) - 1 else 0
    ensures zone.records == Turned(before, domain, kind, wrong, if ok then gained + [target] else gained)
  {
    ok := zone.Update(id, Record(domain, kind, target));
    TurnedSnoc(before, domain, kind, wrong, gained, target);
  }

  /** Lines 112-152: wrong records are turned into records for unsatisfied addresses, while both last. */
  method Repurpose(zone: Zone<string>, domain: string, kind: string, wanted: set<string>, satisfied: set<string>, wrong: seq<nat>)
    returns (r: Result<(), DnsError>, done: set<string>, ghost gained: seq<string>)
    requires zone.Valid() && satisfied <= wanted && Distinct(wrong)
    requires forall id :: id in wrong ==> id in zone.records
    modifies zone
    ensures zone.Valid() && zone.nextId == old(zone.nextId)
    ensures Gained(wanted, satisfied, done, gained)
    ensures |gained| <= |wrong| && zone.records == Turned(old(zone.records), domain, kind, wrong, gained)
    ensures var n := Min(|wrong|, |wanted - satisfied|);
      && (r.Ok? <==> n == 0 || (Supported(kind) && n <= old(zone.allowed)))
      && (r.Ok? ==> |gained| == n && zone.allowed == old(zone.allowed) - n)
    ensures r.Err? ==> r.error == if Supported(kind) then WriteFailed else UnsupportedType
  {
    done, gained := satisfied, [];
    ghost var n := Min(|wrong|, |wanted - satisfied|);
    for j := 0 to |wrong|
      invariant zone.Valid() && zone.nextId == old(zone.nextId) && |gained| == j <= n
      invariant Gained(wanted, satisfied, done, gained)
      invariant zone.allowed == old(zone.allowed) - j && (j > 0 ==> Supported(kind))
      invariant zone.records == Turned(old(zone.records), domain, kind, wrong, gained) && zone.records.Keys == old(zone.records).Keys
    {
      var open := wanted - done;
      if open == {} { break; }
      assert j < n;
      var target :| target in open;
      if !Supported(kind) { return Err(UnsupportedType), done, gained; }
      var ok := TurnOne(zone, domain, kind, wrong[j], target, wrong, old(zone.records), gained);
      if !ok { return Err(WriteFailed), done, gained; }
      GainedMore(wanted, satisfied, done, gained, target);
      done, gained := done + {target}, gained + [target];
    }
    assert |gained| == n;
    return Ok(()), done, gained;
  }

  /** Lines 154-186: a record is created for every address that is still unsatisfied. */
  method AddMissing(zone: Zone<string>, domain: string, kind: string, ips: seq<string>, satisfied: set<string>)
    returns (r: Result<(), DnsError>, ghost gained: seq<string>)
    requires zone.Valid() && Distinct(ips)
    modifies zone
    ensures zone.Valid() && Distinct(gained) && Elements(gained) <= Elements(ips) - satisfied
    ensures zone.records == Grown(old(zone.records), domain, kind, old(zone.nextId), gained)
    ensures var n := |Elements(ips) - satisfied|;
      && (r.Ok? <==> n == 0 || (Supported(kind) && n <= old(zone.allowed)))
      && (r.Ok? ==> |gained| == n && Elements(gained) == Elements(ips) - satisfied && zone.allowed == old(zone.allowed) - n)
    ensures r.Err? ==> r.error == if Supported(kind) then WriteFailed else UnsupportedType
  {
    gained := [];
    for i := 0 to |ips|
      invariant zone.Valid() && zone.nextId == old(zone.nextId) + |gained|
      invariant Distinct(gained) && Elements(gained) == Elements(ips[..i]) - satisfied
      invariant zone.allowed == old(zone.allowed) - |gained| && (gained != [] ==> Supported(kind))
      invariant zone.records == Grown(old(zone.records), domain, kind, old(zone.nextId), gained)
    {
      var ip := ips[i];
      assert ips[..i + 1] == ips[..i] + [ip];
      ElementsSnoc(ips[..i], ip);
      if ip in satisfied { continue; }
      assert ip !in ips[..i];
      Gain(gained, ip, Elements(ips) - satisfied);
      if !Supported(kind) { return Err(UnsupportedType), gained; }
      var ok := zone.Create(Record(domain, kind, ip));
      if !ok { return Err(WriteFailed), gained; }
      GrownSnoc(old(zone.records), domain, kind, old(zone.nextId), gained, ip);
      gained := gained + [ip];
    }
    assert ips[..|ips|] == ips;
    DistinctCount(gained);
    return Ok(()), gained;
  }

  // ---------------------------------------------------------------- reading the records back

  /** Lines 96-107: which addresses are there already, and which records are wrong. */
  method Classify(zone: Zone<string>, domain: string, kind: string, ips: seq<string>)
    returns (satisfied: set<string>, wrong: seq<nat>)
    requires GoodIps(ips)
    ensures satisfied == Elements(ips) - Missing(zone.records, domain, kind, ips)
    ensures Distinct(wrong) && Elements(wrong) == Wrong(zone.records, domain, kind, ips)
  {
    var listed := InSomeOrder(set id | id in zone.records && zone.records[id].name == domain && zone.records[id].kind == kind);
    assert forall id :: id in listed <==> id in Matching(zone.records, domain, kind);
    assert forall k :: 0 <= k < |listed| ==> listed[k] in listed;
    satisfied, wrong := {}, [];
    for i := 0 to |listed|
      invariant Distinct(wrong) && forall id :: id in wrong ==> id in listed[..i]
      invariant forall id :: id in wrong <==> id in listed[..i] && id in Wrong(zone.records, domain, kind, ips)
      invariant forall ip :: ip in satisfied ==> ip in ips && Served(zone.records, domain, kind, ip)
      invariant forall id :: id in listed[..i] && TrimSpace(zone.records[id].content) in ips ==>
        TrimSpace(zone.records[id].content) in satisfied
    {
      var id := listed[i];
      assert listed[..i + 1] == listed[..i] + [id];
      assert id !in listed[..i];
      var content := TrimSpace(zone.records[id].content);
      if content == "" { continue; }
      if content in ips {
        assert Carries(zone.records, id, domain, kind, content);
        satisfied := satisfied + {content};
        continue;
      }
      wrong := wrong + [id];
    }
    assert listed[..|listed|] == listed;
    forall ip | ip in ips && Served(zone.records, domain, kind, ip)
      ensures ip in satisfied
    {
      var id :| Carries(zone.records, id, domain, kind, ip);
      assert id in listed;
    }
  }

  /** Both loops together: `turned` wrong records became records for `g1`, new ones were made for `g2`. */
  ghost predicate Applied(before: Records, mid: Records, after: Records, domain: string, kind: string, ips: seq<string>,
                          wrong: seq<nat>, g1: seq<string>, first: nat, g2: seq<string>) {
    && GoodIps(ips) && (forall id :: id in before ==> id < first)
    && Distinct(wrong) && Elements(wrong) == Wrong(before, domain, kind, ips)
    && Repurposed(before, mid, domain, kind, wrong, g1) && Extended(mid, after, domain, kind, first, g2)
    && Distinct(g1) && Distinct(g2) && Elements(g1) !! Elements(g2)
    && Elements(g1) + Elements(g2) <= Missing(before, domain, kind, ips)
  }

  /** Right records, blank ones and those of other names stay; every other record is for a missing address. */
  ghost predicate OnlyRepairs(before: Records, after: Records, domain: string, kind: string, ips: seq<string>) {
    && before.Keys <= after.Keys
    && (forall id :: id in before && id !in Wrong(before, domain, kind, ips) ==> after[id] == before[id])
    && forall id :: id in after && !(id in before && after[id] == before[id]) ==>
      after[id] == Record(domain, kind, after[id].content) && after[id].content in Missing(before, domain, kind, ips)
  }

  lemma AppliedRepairs(before: Records, mid: Records, after: Records, domain: string, kind: string, ips: seq<string>,
                       wrong: seq<nat>, g1: seq<string>, first: nat, g2: seq<string>)
    requires Applied(before, mid, after, domain, kind, ips, wrong, g1, first, g2)
    ensures OnlyRepairs(before, after, domain, kind, ips)
  {
    forall id | id in before && id !in Wrong(before, domain, kind, ips)
      ensures after[id] == before[id]
    {
      assert forall k :: 0 <= k < |g1| ==> wrong[k] in Elements(wrong);
    }
    forall id | id in after && !(id in before && after[id] == before[id])
      ensures after[id] == Record(domain, kind, after[id].content) && after[id].content in Missing(before, domain, kind, ips)
    {
      if id in before {
        assert id in wrong[..|g1|];
        var k :| 0 <= k < |g1| && wrong[k] == id;
        assert g1[k] in Elements(g1);
      } else {
        var k := id - first;
        assert g2[k] in Elements(g2);
      }
    }
  }

  /** Nothing that was served stops being served. */
  lemma RepairsKeepServed(before: Records, after: Records, domain: string, kind: string, ips: seq<string>, ip: string)
    requires OnlyRepairs(before, after, domain, kind, ips) && ip in ips && ip != ""
    requires Served(before, domain, kind, ip)
    ensures Served(after, domain, kind, ip)
  {
    var id :| Carries(before, id, domain, kind, ip);
    assert Carries(after, id, domain, kind, ip);
  }

  lemma AppliedServes(before: Records, mid: Records, after: Records, domain: string, kind: string, ips: seq<string>,
                      wrong: seq<nat>, g1: seq<string>, first: nat, g2: seq<string>)
    requires Applied(before, mid, after, domain, kind, ips, wrong, g1, first, g2)
    requires Elements(g1) + Elements(g2) == Missing(before, domain, kind, ips)
    ensures Missing(after, domain, kind, ips) == {}
  {
    AppliedRepairs(before, mid, after, domain, kind, ips, wrong, g1, first, g2);
    forall ip | ip in ips
      ensures Served(after, domain, kind, ip)
    {
      if Served(before, domain, kind, ip) {
        RepairsKeepServed(before, after, domain, kind, ips, ip);
      } else if ip in g1 {
        var k :| 0 <= k < |g1| && g1[k] == ip;
        assert Carries(after, wrong[k], domain, kind, ip);
      } else {
        assert ip in Elements(g2);
        var k :| 0 <= k < |g2| && g2[k] == ip;
        assert Carries(after, first + k, domain, kind, ip);
      }
    }
  }

  lemma LeftWrong(before: Records, mid: Records, after: Records, domain: string, kind: string, ips: seq<string>,
                  wrong: seq<nat>, g1: seq<string>, first: nat, g2: seq<string>, id: nat)
    requires Applied(before, mid, after, domain, kind, ips, wrong, g1, first, g2)
    ensures id in Wrong(after, domain, kind, ips) <==> id in wrong[|g1|..]
  {
    AppliedRepairs(before, mid, after, domain, kind, ips, wrong, g1, first, g2);
    assert wrong == wrong[..|g1|] + wrong[|g1|..];
    assert id in wrong <==> id in Elements(wrong);
    if id in wrong[|g1|..] {
      var k :| 0 <= k < |wrong| - |g1| && wrong[|g1|..][k] == id;
      assert id !in wrong[..|g1|];
    } else if id in wrong {
      var k :| 0 <= k < |g1| && wrong[k] == id;
      assert g1[k] in Elements(g1);
    }
  }

  /** The records that changed are the first |g1| wrong ones. */
  lemma ChangedCount(before: Records, mid: Records, after: Records, domain: string, kind: string, ips: seq<string>,
                     wrong: seq<nat>, g1: seq<string>, first: nat, g2: seq<string>)
    requires Applied(before, mid, after, domain, kind, ips, wrong, g1, first, g2)
    ensures |Changed(before, after)| == |g1|
  {
    var turned := wrong[..|g1|];
    forall id
      ensures id in Changed(before, after) <==> id in turned
    {
      if id in turned {
        var k :| 0 <= k < |g1| && wrong[k] == id;
        assert wrong[k] in Elements(wrong) && g1[k] in Elements(g1);
      }
    }
    assert Changed(before, after) == Elements(turned);
    DistinctCount(turned);
  }

  /** The other wrong ones stay wrong. */
  lemma WrongCount(before: Records, mid: Records, after: Records, domain: string, kind: string, ips: seq<string>,
                   wrong: seq<nat>, g1: seq<string>, first: nat, g2: seq<string>)
    requires Applied(before, mid, after, domain, kind, ips, wrong, g1, first, g2)
    ensures |Wrong(after, domain, kind, ips)| == |wrong| - |g1|
  {
    var left := wrong[|g1|..];
    forall id
      ensures id in Wrong(after, domain, kind, ips) <==> id in left
    {
      LeftWrong(before, mid, after, domain, kind, ips, wrong, g1, first, g2, id);
    }
    assert Wrong(after, domain, kind, ips) == Elements(left);
    DistinctCount(left);
  }

  /** Every address is served, as many wrong records as needed were repurposed for that, the rest
      of the missing addresses were added, and the values are exact if no wrong record is left over. */
  ghost predicate Converged(before: Records, after: Records, domain: string, kind: string, ips: seq<string>) {
    var missing := |Missing(before, domain, kind, ips)|;
    var wrong := |Wrong(before, domain, kind, ips)|;
    && Missing(after, domain, kind, ips) == {}
    && |Changed(before, after)| == Min(wrong, missing)
    && |after.Keys - before.Keys| == missing - Min(wrong, missing)
    && (Exact(after, domain, kind, ips) <==> wrong <= missing)
  }

  lemma AppliedConverges(before: Records, mid: Records, after: Records, domain: string, kind: string, ips: seq<string>,
                         wrong: seq<nat>, g1: seq<string>, first: nat, g2: seq<string>)
    requires Applied(before, mid, after, domain, kind, ips, wrong, g1, first, g2)
    requires Elements(g1) + Elements(g2) == Missing(before, domain, kind, ips)
    requires |g1| == Min(|wrong|, |Missing(before, domain, kind, ips)|)
    ensures Converged(before, after, domain, kind, ips)
  {
    AppliedServes(before, mid, after, domain, kind, ips, wrong, g1, first, g2);
    ChangedCount(before, mid, after, domain, kind, ips, wrong, g1, first, g2);
    WrongCount(before, mid, after, domain, kind, ips, wrong, g1, first, g2);
    NewKeysCount(mid, after, domain, kind, first, g2);
    DistinctCount(wrong);
    DistinctCount(g1);
    DistinctCount(g2);
  }

  /** Both loops, after the checks. `gained` tells how far they got. */
  method Repair(zone: Zone<string>, domain: string, kind: string, ips: seq<string>) returns (r: Result<(), DnsError>)
    requires zone.Valid() && GoodIps(ips)
    modifies zone
    ensures zone.Valid() && OnlyRepairs(old(zone.records), zone.records, domain, kind, ips)
    ensures var missing := |Missing(old(zone.records), domain, kind, ips)|;
      && (r.Ok? <==> missing == 0 || (Supported(kind) && missing <= old(zone.allowed)))
      && (r.Ok? ==> zone.allowed == old(zone.allowed) - missing)
    ensures r.Err? ==> r.error == if Supported(kind) then WriteFailed else UnsupportedType
    ensures r.Ok? ==> Converged(old(zone.records), zone.records, domain, kind, ips)
  {
    ghost var before, first := zone.records, zone.nextId;
    var satisfied, wrong := Classify(zone, domain, kind, ips);
    WrongIn(before, domain, kind, ips, wrong);
    var wanted := Elements(ips);
    var done;
    ghost var g1;
    ghost var g2: seq<string> := [];
    r, done, g1 := Repurpose(zone, domain, kind, wanted, satisfied, wrong);
    ghost var mid := zone.records;
    if r.Ok? {
      r, g2 := AddMissing(zone, domain, kind, ips, done);
    }
    TurnedRepurposes(before, domain, kind, wrong, g1);
    GrownExtends(mid, domain, kind, first, g2);
    Finished(before, mid, zone.records, domain, kind, ips, wrong, first, satisfied, done, g1, g2);
  }

  lemma WrongIn(records: Records, domain: string, kind: string, ips: seq<string>, wrong: seq<nat>)
    requires Elements(wrong) == Wrong(records, domain, kind, ips)
    ensures forall id :: id in wrong ==> id in records
  {
    forall id | id in wrong
      ensures id in records
    {
      assert id in Elements(wrong);
    }
  }

  lemma GainsWithin(all: set<string>, missing: set<string>, satisfied: set<string>, done: set<string>, g1: seq<string>, g2: seq<string>)
    requires missing <= all && satisfied == all - missing
    requires Gained(all, satisfied, done, g1) && Elements(g2) <= all - done
    ensures all - satisfied == missing && |missing| == |g1| + |all - done|
    ensures Elements(g1) !! Elements(g2) && Elements(g1) + Elements(g2) <= missing
    ensures Elements(g2) == all - done ==> Elements(g1) + Elements(g2) == missing
  {
    assert all - satisfied == missing;
  }

  lemma Finished(before: Records, mid: Records, after: Records, domain: string, kind: string, ips: seq<string>, wrong: seq<nat>,
                 first: nat, satisfied: set<string>, done: set<string>, g1: seq<string>, g2: seq<string>)
    requires GoodIps(ips) && forall id :: id in before ==> id < first
    requires satisfied == Elements(ips) - Missing(before, domain, kind, ips)
    requires Distinct(wrong) && Elements(wrong) == Wrong(before, domain, kind, ips)
    requires Repurposed(before, mid, domain, kind, wrong, g1) && Gained(Elements(ips), satisfied, done, g1)
    requires Extended(mid, after, domain, kind, first, g2) && Distinct(g2) && Elements(g2) <= Elements(ips) - done
    ensures OnlyRepairs(before, after, domain, kind, ips)
    ensures |Missing(before, domain, kind, ips)| == |Elements(ips) - satisfied| == |g1| + |Elements(ips) - done|
    ensures |g1| == Min(|wrong|, |Elements(ips) - satisfied|) && Elements(g2) == Elements(ips) - done ==>
      Converged(before, after, domain, kind, ips)
  {
    var missing := Missing(before, domain, kind, ips);
    GainsWithin(Elements(ips), missing, satisfied, done, g1, g2);
    assert Applied(before, mid, after, domain, kind, ips, wrong, g1, first, g2);
    AppliedRepairs(before, mid, after, domain, kind, ips, wrong, g1, first, g2);
    if |g1| == Min(|wrong|, |missing|) && Elements(g2) == Elements(ips) - done {
      AppliedConverges(before, mid, after, domain, kind, ips, wrong, g1, first, g2);
    }
  }

  lemma RepairsSpare(before: Records, after: Records, domain: string, kind: string, ips: seq<string>)
    requires OnlyRepairs(before, after, domain, kind, ips)
    ensures Spares(before, after, domain, kind, ips) && before.Keys <= after.Keys
  {
  }

  /** A call that succeeds converges; one with nothing missing writes nothing, so neither does a second
      call; and one that fails has still only repaired. */
  method EnsureRecords(zone: Zone<string>, domain: string, recordType: string, ips: seq<string>, reachable: bool)
    returns (r: Result<(), DnsError>)
    requires zone.Valid() && GoodIps(ips)
    modifies zone
    ensures zone.Valid() && OnlyRepairs(old(zone.records), zone.records, domain, KindOrDefault(recordType), ips)
    ensures var kind := if recordType == "" then "A" else recordType;
      var missing := |Missing(old(zone.records), domain, kind, ips)|;
      && (r.Ok? <==> ips == [] || (reachable && (missing == 0 || ((kind == "A" || kind == "AAAA") && missing <= old(zone.allowed)))))
      && (r.Err? ==> r.error == if !reachable then Unreachable else if kind == "A" || kind == "AAAA" then WriteFailed else UnsupportedType)
      && (r.Ok? ==> zone.allowed == old(zone.allowed) - missing)
      && (missing == 0 ==> zone.records == old(zone.records))
      && Spares(old(zone.records), zone.records, domain, kind, ips) && old(zone.records).Keys <= zone.records.Keys
      && (r.Ok? ==> forall ip :: ip in ips ==>
            exists id :: id in zone.records && zone.records[id] == Record(domain, kind, zone.records[id].content) &&
              TrimSpace(zone.records[id].content) == ip)
    ensures r.Ok? && ips != [] ==> Converged(old(zone.records), zone.records, domain, KindOrDefault(recordType), ips)
  {
    if ips == [] { return Ok(()); }
    var kind := KindOrDefault(recordType);
    if !reachable {
      NothingMissing(zone.records, zone.records, domain, kind, ips);
      return Err(Unreachable);
    }
    r := Repair(zone, domain, kind, ips);
    NothingMissing(old(zone.records), zone.records, domain, kind, ips);
    RepairsSpare(old(zone.records), zone.records, domain, kind, ips);
    AllServed(zone.records, domain, kind, ips);
  }

  lemma NothingMissing(before: Records, after: Records, domain: string, kind: string, ips: seq<string>)
    requires OnlyRepairs(before, after, domain, kind, ips)
    ensures |Missing(before, domain, kind, ips)| == 0 ==> after == before
  {
  }

  /** A second call after one that succeeded succeeds, and writes nothing. */
  method EnsureTwice(zone: Zone<string>, domain: string, recordType: string, ips: seq<string>)
    returns (first: Result<(), DnsError>, second: Result<(), DnsError>, ghost between: Records, ghost left: nat)
    requires zone.Valid() && GoodIps(ips)
    modifies zone
    ensures zone.Valid()
    ensures first.Ok? ==> second.Ok? && zone.records == between && zone.allowed == left
    ensures first.Ok? && ips != [] ==> Converged(old(zone.records), between, domain, KindOrDefault(recordType), ips)
  {
    first := EnsureRecords(zone, domain, recordType, ips, true);
    between, left := zone.records, zone.allowed;
    second := EnsureRecords(zone, domain, recordType, ips, true);
  }

  const RIGHT := "10.0.0.1"
  const SURPLUS := "10.0.0.2"
  const ONE_OF_EACH: Records := map[0 := Record("d", "A", RIGHT), 1 := Record("d", "A", SURPLUS)]

  lemma NothingToTrim(s: string)
    requires s != [] && !IsSpace(s[0]) && !IsSpace(s[|s| - 1])
    ensures TrimSpace(s) == s
  {
  }

  lemma OneOfEach()
    ensures GoodIps([RIGHT]) && |Missing(ONE_OF_EACH, "d", "A", [RIGHT])| == 0 && Wrong(ONE_OF_EACH, "d", "A", [RIGHT]) == {1}
  {
    NothingToTrim(RIGHT);
    NothingToTrim(SURPLUS);
    assert RIGHT[7] != SURPLUS[7];
    assert Carries(ONE_OF_EACH, 0, "d", "A", RIGHT);
    assert Missing(ONE_OF_EACH, "d", "A", [RIGHT]) == {};
  }

  /** One record is right and one is wrong: a call for the right address alone succeeds and leaves the
      wrong one in place. */
  method SurplusStays(zone: Zone<string>) returns (r: Result<(), DnsError>)
    requires zone.Valid() && zone.records == ONE_OF_EACH
    modifies zone
    ensures r.Ok? && zone.records == ONE_OF_EACH && Wrong(zone.records, "d", "A", [RIGHT]) == {1}
  {
    OneOfEach();
    r := EnsureRecords(zone, "d", "A", [RIGHT], true);
  }
}
