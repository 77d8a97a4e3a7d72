/** What both DNS providers see of a zone, and internal/plugins/dns_record/provider.go. */
module DnsZone {
  import opened Text

  datatype DnsError = InvalidDomain | Unreachable | UnsupportedType | WriteFailed

  datatype Record<N> = Record(name: N, kind: string, content: string)

  function KindOrDefault(recordType: string): string { if recordType == "" then "A" else recordType }

  // ---------------------------------------------------------------- the records of one name and type

  ghost function Matching<N>(records: map<nat, Record<N>>, name: N, kind: string): set<nat> {
    set id | id in records && records[id].name == name && records[id].kind == kind
  }

  /** The record carries this value for the name and type. */
  ghost predicate Carries<N>(records: map<nat, Record<N>>, id: nat, name: N, kind: string, value: string) {
    id in Matching(records, name, kind) && TrimSpace(records[id].content) == value
  }

  ghost predicate Served<N>(records: map<nat, Record<N>>, name: N, kind: string, value: string) {
    exists id :: Carries(records, id, name, kind, value)
  }

  /** The wanted values no record carries. */
  ghost function Missing<N>(records: map<nat, Record<N>>, name: N, kind: string, ips: seq<string>): set<string> {
    set ip | ip in ips && !Served(records, name, kind, ip)
  }

  /** The records with a value that is not wanted. */
  ghost function Wrong<N>(records: map<nat, Record<N>>, name: N, kind: string, ips: seq<string>): set<nat> {
    set id | id in Matching(records, name, kind) && TrimSpace(records[id].content) != "" && TrimSpace(records[id].content) !in ips
  }

  /** The values served are exactly the wanted ones. */
  ghost predicate Exact<N>(records: map<nat, Record<N>>, name: N, kind: string, ips: seq<string>) {
    Missing(records, name, kind, ips) == {} && Wrong(records, name, kind, ips) == {}
  }

  ghost function Changed<N>(before: map<nat, Record<N>>, after: map<nat, Record<N>>): set<nat> {
    set id | id in before && id in after && after[id] != before[id]
  }

  /** The zone behind the provider's API; `allowed` more writes will succeed. */
  class Zone<N(==)> {
    var records: map<nat, Record<N>>
    var nextId: nat
    var allowed: nat

    ghost predicate Valid()
      reads this
    {
      forall id :: id in records ==> id < nextId
    }

    constructor (records: map<nat, Record<N>>, nextId: nat, allowed: nat)
      requires forall id :: id in records ==> id < nextId
      ensures Valid() && this.records == records && this.nextId == nextId && this.allowed == allowed
    {
      this.records, this.nextId, this.allowed := records, nextId, allowed;
    }

    method Create(record: Record<N>) returns (ok: bool)
      requires Valid()
      modifies this
      ensures Valid() && ok == (old(allowed) > 0)
      ensures ok ==> allowed == old(allowed) - 1 && records == old(records)[old(nextId) := record] && nextId == old(nextId) + 1
      ensures !ok ==> allowed == 0 && records == old(records) && nextId == old(nextId)
    {
      ok := allowed > 0;
      if ok {
        records, nextId, allowed := records[nextId := record], nextId + 1, allowed - 1;
      }
    }

    method Update(id: nat, record: Record<N>) returns (ok: bool)
      requires Valid() && id in records
      modifies this
      ensures Valid() && ok == (old(allowed) > 0)
      ensures ok ==> allowed == old(allowed) - 1 && records == old(records)[id := record] && nextId == old(nextId)
      ensures !ok ==> allowed == 0 && records == old(records) && nextId == old(nextId)
    {
      ok := allowed > 0;
      if ok {
        records, allowed := records[id := record], allowed - 1;
      }
    }

    method Delete(id: nat) returns (ok: bool)
      requires Valid() && id in records
      modifies this
      ensures Valid() && ok == (old(allowed) > 0)
      ensures ok ==> allowed == old(allowed) - 1 && records == old(records) - {id} && nextId == old(nextId)
      ensures !ok ==> allowed == 0 && records == old(records) && nextId == old(nextId)
    {
      ok := allowed > 0;
      if ok {
        records, allowed := records - {id}, allowed - 1;
      }
    }
  }

  function Elements<T(==)>(s: seq<T>): set<T> { set x | x in s }

  predicate Distinct<T(==)>(s: seq<T>) { forall i, j :: 0 <= i < j < |s| ==> s[i] != s[j] }

  /** The members of a set in the order the API happens to return them. */
  method InSomeOrder(ids: set<nat>) returns (order: seq<nat>)
    ensures Distinct(order) && forall id :: id in order <==> id in ids
  {
    order := [];
    var rest := ids;
    while rest != {}
      invariant rest <= ids && Distinct(order) && forall id :: id in order <==> id in ids - rest
      decreases rest
    {
      var id :| id in rest;
      assert id !in order;
      order := order + [id];
      rest := rest - {id};
    }
  }

  lemma {:induction false} DistinctCount<T>(s: seq<T>)
    requires Distinct(s)
    ensures |Elements(s)| == |s|
  {
    var all := Elements(s);
    if s == [] {
      assert all == {};
    } else {
      var init, last := s[..|s| - 1], s[|s| - 1];
      DistinctCount(init);
      assert all == Elements(init) + {last};
      assert last !in init;
    }
  }

  // ---------------------------------------------------------------- what the caller sees

  /** Every address has a record of this name and type with it as its value. */
  lemma AllServed<N>(records: map<nat, Record<N>>, name: N, kind: string, ips: seq<string>)
    ensures Missing(records, name, kind, ips) == {} <==> forall ip :: ip in ips ==>
      exists id :: id in records && records[id].name == name && records[id].kind == kind && TrimSpace(records[id].content) == ip
  {
    forall ip | ip in ips
      ensures Served(records, name, kind, ip) <==>
        exists id :: id in records && records[id].name == name && records[id].kind == kind && TrimSpace(records[id].content) == ip
    {
      if id :| id in records && records[id].name == name && records[id].kind == kind && TrimSpace(records[id].content) == ip {
        assert Carries(records, id, name, kind, ip);
      }
    }
    if forall ip :: ip in ips ==> Served(records, name, kind, ip) { assert Missing(records, name, kind, ips) == {}; }
    if Missing(records, name, kind, ips) == {} {
      forall ip | ip in ips
        ensures Served(records, name, kind, ip)
      {
        assert ip !in Missing(records, name, kind, ips);
      }
    }
  }

  /** No record of this name and type has another value, blank ones apart. */
  lemma NoneWrong<N>(records: map<nat, Record<N>>, name: N, kind: string, ips: seq<string>)
    ensures Wrong(records, name, kind, ips) == {} <==> forall id :: id in records && records[id].name == name && records[id].kind == kind ==>
      TrimSpace(records[id].content) == "" || TrimSpace(records[id].content) in ips
  {
    if Wrong(records, name, kind, ips) == {} {
      forall id | id in records && records[id].name == name && records[id].kind == kind
        ensures TrimSpace(records[id].content) == "" || TrimSpace(records[id].content) in ips
      {
        assert id !in Wrong(records, name, kind, ips);
      }
    }
  }

  /** A record that is right, blank, or of another name or type stays; any other record there is
      afterwards is one for a wanted address. */
  ghost predicate Spares<N>(before: map<nat, Record<N>>, after: map<nat, Record<N>>, name: N, kind: string, ips: seq<string>) {
    && (forall id ::
          (id in before && (before[id].name != name || before[id].kind != kind ||
            TrimSpace(before[id].content) in ips || TrimSpace(before[id].content) == "")) ==>
          id in after && after[id] == before[id])
    && forall id :: id in after ==>
         || (id in before && after[id] == before[id])
         || (after[id].name == name && after[id].kind == kind && after[id].content in ips)
  }

  // ---------------------------------------------------------------- adding records

  lemma ElementsSnoc(s: seq<string>, x: string)
    ensures Elements(s + [x]) == Elements(s) + {x}
  {
  }

  lemma Gain(gained: seq<string>, ip: string, room: set<string>)
    requires Distinct(gained) && Elements(gained) <= room && ip in room && ip !in Elements(gained)
    ensures Distinct(gained + [ip]) && Elements(gained + [ip]) == Elements(gained) + {ip} && |gained| < |room|
  {
    assert forall k :: 0 <= k < |gained| ==> gained[k] in Elements(gained);
    ElementsSnoc(gained, ip);
    DistinctCount(gained + [ip]);
    assert room == Elements(gained + [ip]) + (room - Elements(gained + [ip]));
  }

  /** The new records follow the old ones, one for each gained address. */
  ghost predicate Extended<N>(before: map<nat, Record<N>>, after: map<nat, Record<N>>, name: N, kind: string, first: nat, gained: seq<string>) {
    && (forall id :: id in after <==> id in before || first <= id < first + |gained|)
    && (forall id :: id in before ==> after[id] == before[id])
    && forall k {:trigger gained[k]} :: 0 <= k < |gained| ==> after[first + k] == Record(name, kind, gained[k])
  }

  ghost function Grown<N>(before: map<nat, Record<N>>, name: N, kind: string, first: nat, gained: seq<string>): map<nat, Record<N>> {
    if gained == [] then before
    else
      var k := |gained| - 1;
      Grown(before, name, kind, first, gained[..k])[first + k := Record(name, kind, gained[k])]
  }

  lemma GrownSnoc<N>(before: map<nat, Record<N>>, name: N, kind: string, first: nat, gained: seq<string>, ip: string)
    ensures Grown(before, name, kind, first, gained + [ip]) ==
      Grown(before, name, kind, first, gained)[first + |gained| := Record(name, kind, ip)]
  {
    assert (gained + [ip])[..|gained|] == gained;
  }

  lemma {:induction false} GrownExtends<N>(before: map<nat, Record<N>>, name: N, kind: string, first: nat, gained: seq<string>)
    requires forall id :: id in before ==> id < first
    ensures Extended(before, Grown(before, name, kind, first, gained), name, kind, first, gained)
  {
    if gained == [] {
    } else {
      var init, last := gained[..|gained| - 1], gained[|gained| - 1];
      assert gained == init + [last];
      GrownExtends(before, name, kind, first, init);
      GrownSnoc(before, name, kind, first, init, last);
    }
  }

  lemma {:induction false} NewKeysCount<N>(before: map<nat, Record<N>>, after: map<nat, Record<N>>, name: N, kind: string, first: nat, gained: seq<string>)
    requires Extended(before, after, name, kind, first, gained) && forall id :: id in before ==> id < first
    ensures |after.Keys - before.Keys| == |gained|
  {
    var ids := seq(|gained|, k requires 0 <= k < |gained| => first + k);
    assert after.Keys - before.Keys == Elements(ids) by {
      forall id | id in after && id !in before
        ensures id in ids
      {
        assert ids[id - first] == id;
      }
      forall id | id in ids
        ensures id in after && id !in before
      {
        var k :| 0 <= k < |ids| && ids[k] == id;
      }
    }
    DistinctCount(ids);
  }

  // ---------------------------------------------------------------- the wanted addresses

  datatype Target = Host(publicAddr: string, addr: string) | OtherTarget

  /** Distinct, not blank, and without surrounding blanks. */
  ghost predicate GoodIps(ips: seq<string>) {
    Distinct(ips) && forall ip :: ip in ips ==> ip != "" && TrimSpace(ip) == ip
  }

  ghost predicate Offers(t: Target, isIp: string -> bool, ip: string) {
    t.Host? && ip == TrimSpace(if t.publicAddr == "" then t.addr else t.publicAddr) && ip != "" && isIp(ip)
  }

  /** Every address some host offers, once each; a public address hides the private one. */
  method CollectIPs(targets: seq<Target>, isIp: string -> bool) returns (ips: seq<string>)
    ensures GoodIps(ips)
    ensures forall ip :: ip in ips <==>
      && ip != "" && isIp(ip)
      && exists t :: t in targets && t.Host? && ip == TrimSpace(if t.publicAddr == "" then t.addr else t.publicAddr)
  {
    ips := [];
    var seen: set<string> := {};
    for i := 0 to |targets|
      invariant GoodIps(ips) && forall ip :: ip in seen <==> ip in ips
      invariant forall ip :: ip in ips <==> exists t :: t in targets[..i] && Offers(t, isIp, ip)
    {
      var t := targets[i];
      assert targets[..i + 1] == targets[..i] + [t];
      if t.OtherTarget? { continue; }
      var addr := t.publicAddr;
      if addr == "" { addr := t.addr; }
      TrimSpaceIdempotent(addr);
      addr := TrimSpace(addr);
      if addr == "" || addr in seen { continue; }
      if !isIp(addr) { continue; }
      seen := seen + {addr};
      ips := ips + [addr];
      assert Offers(t, isIp, addr);
    }
    assert targets[..|targets|] == targets;
  }
}
