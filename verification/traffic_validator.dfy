/** The one-pass validator and its agreement with the declarative meaning (domain/traffic.go). */
module TrafficValidator {
  import opened Traffic

  datatype Registered = Registered(address: ListenAddress, name: string)

  /** `listenAddressSet`. */
  class ListenAddressSet {
    var byKey: map<string, string>
    var all: seq<Registered>

    ghost predicate Valid()
      reads this
    {
      forall k :: k in byKey <==> exists r :: r in all && r.address.key == k
    }

    constructor ()
      ensures Valid() && all == []
    {
      byKey, all := map[], [];
    }

    method Add(address: ListenAddress, name: string) returns (ok: bool)
      requires Valid()
      modifies this
      ensures Valid()
      ensures ok <==> forall r :: r in old(all) ==> !AddressesConflict(r.address, address)
      ensures all == if ok then old(all) + [Registered(address, name)] else old(all)
    {
      if address.key in byKey {
        return false;
      }
      for i := 0 to |all|
        invariant forall j :: 0 <= j < i ==>
                !(all[j].address.port == address.port && (all[j].address.wildcard || address.wildcard))
        invariant all == old(all) && byKey == old(byKey)
      {
        if all[i].address.port == address.port && (all[i].address.wildcard || address.wildcard) {
          assert all[i] in all;
          return false;
        }
      }
      byKey := byKey[address.key := name];
      all := all + [Registered(address, name)];
      return true;
    }
  }

  /** The addresses the entry points of one family registered, in order. */
  function Addresses(entries: seq<EntryPoint>, udp: bool): seq<Registered> {
    if entries == [] then []
    else
      var last := entries[|entries| - 1];
      var front := Addresses(entries[..|entries| - 1], udp);
      if last.protocol.EntryUDP? == udp && last.address.Some? then front + [Registered(last.address.value, last.name)]
          else front
  }

  lemma {:induction false} AddressMember(entries: seq<EntryPoint>, udp: bool, r: Registered)
    ensures r in Addresses(entries, udp) <==>
              exists e :: e in entries && e.protocol.EntryUDP? == udp && e.address.Some?
                  && r == Registered(e.address.value, e.name)
  {
    if entries != [] {
      var front, last := entries[..|entries| - 1], entries[|entries| - 1];
      assert entries == front + [last];
      AddressMember(front, udp, r);
    }
  }

  lemma AddressesGrow(entries: seq<EntryPoint>, e: EntryPoint, udp: bool)
    ensures Addresses(entries + [e], udp) ==
            if e.protocol.EntryUDP? == udp && e.address.Some? then
                Addresses(entries, udp) + [Registered(e.address.value, e.name)]
            else Addresses(entries, udp)
  {
    assert (entries + [e])[..|entries|] == entries;
  }

  lemma {:induction false} EntryMapKeys(entries: seq<EntryPoint>, n: string)
    ensures n in EntryMap(entries) <==> exists e :: e in entries && e.name == n
    ensures n in EntryMap(entries) ==> EntryMap(entries)[n] in entries && EntryMap(entries)[n].name == n
  {
    if entries != [] {
      var front, last := entries[..|entries| - 1], entries[|entries| - 1];
      assert entries == front + [last];
      EntryMapKeys(front, n);
    }
  }

  lemma {:induction false} ServiceMapKeys(services: seq<Service>, n: string)
    ensures n in ServiceMap(services) <==> exists s :: s in services && s.name == n
    ensures n in ServiceMap(services) ==> ServiceMap(services)[n] in services && ServiceMap(services)[n].name == n
  {
    if services != [] {
      var front, last := services[..|services| - 1], services[|services| - 1];
      assert services == front + [last];
      ServiceMapKeys(front, n);
    }
  }

  lemma MapsGrow(entries: seq<EntryPoint>, e: EntryPoint, services: seq<Service>, s: Service)
    ensures EntryMap(entries + [e]) == EntryMap(entries)[e.name := e]
    ensures ServiceMap(services + [s]) == ServiceMap(services)[s.name := s]
  {
    assert (entries + [e])[..|entries|] == entries;
    assert (services + [s])[..|services|] == services;
  }

  lemma NoConflictGrows<T(!new)>(s: seq<T>, x: T, conflict: (T, T) -> bool)
    ensures NoConflict(s + [x], conflict) <==> NoConflict(s, conflict) && forall y :: y in s ==> !conflict(y, x)
  {
    if NoConflict(s + [x], conflict) {
      forall i, j | 0 <= i < j < |s| ensures !conflict(s[i], s[j]) {
        assert (s + [x])[i] == s[i] && (s + [x])[j] == s[j];
      }
      forall y | y in s ensures !conflict(y, x) {
        var i :| 0 <= i < |s| && s[i] == y;
        assert (s + [x])[i] == y && (s + [x])[|s|] == x;
      }
    }
  }

  lemma EntryPointsGrow(entries: seq<EntryPoint>, e: EntryPoint)
    ensures EntryPointsAccepted(entries + [e]) <==>
              EntryPointsAccepted(entries) && EntryPointValid(e) && forall y :: y in entries ==>
                  !EntryPointsConflict(y, e)
  {
    NoConflictGrows(entries, e, EntryPointsConflict);
    assert (entries + [e])[|entries|] == e;
    assert forall y :: y in entries ==> y in entries + [e];
  }

  /** A prefix that is not accepted cannot be part of an accepted list. */
  lemma PrefixAccepted(entries: seq<EntryPoint>, n: nat)
    requires n <= |entries| && EntryPointsAccepted(entries)
    ensures EntryPointsAccepted(entries[..n])
  {
    forall e | e in entries[..n] ensures EntryPointValid(e) { assert e in entries; }
  }

  /** `validateTrafficEntryPoints`: one pass over the entry points decides pairwise compatibility. */
  method ValidateEntryPoints(entries: seq<EntryPoint>) returns (ok: bool, entryPoints: map<string, EntryPoint>)
    ensures ok <==> EntryPointsAccepted(entries)
    ensures ok ==> entryPoints == EntryMap(entries)
  {
    entryPoints := map[];
    var tcp := new ListenAddressSet();
    var udp := new ListenAddressSet();
    for i := 0 to |entries|
      invariant tcp.Valid() && udp.Valid() && tcp != udp && fresh(tcp) && fresh(udp)
      invariant tcp.all == Addresses(entries[..i], false) && udp.all == Addresses(entries[..i], true)
      invariant entryPoints == EntryMap(entries[..i])
      invariant EntryPointsAccepted(entries[..i])
    {
      var e := entries[i];
      ghost var done := entries[..i];
      assert entries[..i + 1] == done + [e];
      EntryPointsGrow(done, e);
      AddressesGrow(done, e, false);
      AddressesGrow(done, e, true);
      EntryMapKeys(done, e.name);
      MapsGrow(done, e, [], Service("", []));
      if !EntryPointValid(e) || e.name in entryPoints {
        RejectedPrefix(entries, i);
        return false, entryPoints;
      }
      ConflictsAreRegistered(done, e);
      var added;
      if e.protocol.EntryUDP? {
        added := udp.Add(e.address.value, e.name);
      } else {
        added := tcp.Add(e.address.value, e.name);
      }
      if !added {
        RejectedPrefix(entries, i);
        return false, entryPoints;
      }
      entryPoints := entryPoints[e.name := e];
    }
    assert entries[..|entries|] == entries;
    return true, entryPoints;
  }

  lemma RejectedPrefix(entries: seq<EntryPoint>, i: nat)
    requires i < |entries| && !EntryPointsAccepted(entries[..i + 1])
    ensures !EntryPointsAccepted(entries)
  {
    if EntryPointsAccepted(entries) { PrefixAccepted(entries, i + 1); }
  }

  /** With a new name, a conflict is a conflict with an address registered for the same family. */
  lemma ConflictsAreRegistered(done: seq<EntryPoint>, e: EntryPoint)
    requires e.address.Some? && forall y :: y in done ==> y.name != e.name
    ensures (forall y :: y in done ==> !EntryPointsConflict(y, e)) <==>
              forall r :: r in Addresses(done, e.protocol.EntryUDP?) ==> !AddressesConflict(r.address, e.address.value)
  {
    forall r ensures r in Addresses(done, e.protocol.EntryUDP?) <==>
              exists y :: y in done && y.protocol.EntryUDP? == e.protocol.EntryUDP? && y.address.Some?
                  && r == Registered(y.address.value, y.name)
    {
      AddressMember(done, e.protocol.EntryUDP?, r);
    }
    forall y | y in done && EntryPointsConflict(y, e)
      ensures exists r :: r in Addresses(done, e.protocol.EntryUDP?) && AddressesConflict(r.address, e.address.value)
    {
      assert Registered(y.address.value, y.name) in Addresses(done, e.protocol.EntryUDP?);
    }
  }
}
