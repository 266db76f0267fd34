/** The address pool of ip4_manager.go (type `IP4Manager`) and network.go
    (type `NetworkControl`, the same code under other names): a fixed network
    and two sets of addresses, the leased ones (`UsedIPStorage`) and the
    released ones (`FreeIPStorage`), updated in place by `GetFreeIP`,
    `SetUsedIP` and `ReleaseIP`.

    Each state-changing method is specified by a function from the old pair
    of sets to the result and the new pair; the properties of those
    functions are proved in pool_properties.dfy. Addresses are compared as
    whole 32-bit values here; the two-octet comparisons the code actually
    performs are modelled in pool_as_written.dfy. */
module Pool {
  import opened Bits
  import opened IPv4

  /** The errors of ip4_manager.go:10-18 that the pool returns. */
  datatype Error =
    | StorageIsEmpty
    | NoFreeIPAddress
    | IPAddressIsUsed
    | IPIsNotFound
    | IPIsANetworkAddress
    | IPAddressIsNotIncludedInNetwork

  /** What `GetFreeIP` returns: an address with a nil error, the pair
      `("", nil)`, or `("", err)`. */
  datatype Grant = Granted(addr: Addr) | NoAddress | Refused(err: Error)

  /** The error result of `SetUsedIP` and `ReleaseIP`. */
  datatype Outcome = Ok | Failed(err: Error)

  /** The two maps of the pool, as the sets of their keys. */
  datatype Sets = Sets(used: set<Addr>, free: set<Addr>)

  datatype Leasing = Leasing(grant: Grant, after: Sets)

  datatype Updating = Updating(outcome: Outcome, after: Sets)

  /** The value `freeIPStorage`'s loop ends with: it starts from `init` and
      takes every key below the current one. */
  ghost function Least(s: set<Addr>, init: Addr): (m: Addr)
    ensures m <= init && (m == init || m in s)
    ensures forall x :: x in s ==> m <= x
    decreases s
  {
    if s == {} then init
    else
      var x :| x in s;
      var m := Least(s - {x}, init);
      assert forall y :: y in s ==> y == x || y in s - {x};
      if x < m then x else m
  }

  /** The value `getIPStorage`'s loop ends with: it starts from `init` and
      takes every key above the current one. */
  ghost function Greatest(s: set<Addr>, init: Addr): (m: Addr)
    ensures m >= init && (m == init || m in s)
    ensures forall x :: x in s ==> x <= m
    decreases s
  {
    if s == {} then init
    else
      var x :| x in s;
      var m := Greatest(s - {x}, init);
      assert forall y :: y in s ==> y == x || y in s - {x};
      if x > m then x else m
  }

  /** Any value with the three properties of `Least` is `Least`. */
  lemma LeastUnique(s: set<Addr>, init: Addr, m: Addr)
    requires m <= init && (m == init || m in s)
    requires forall x :: x in s ==> m <= x
    ensures m == Least(s, init)
  {
  }

  lemma GreatestUnique(s: set<Addr>, init: Addr, m: Addr)
    requires m >= init && (m == init || m in s)
    requires forall x :: x in s ==> x <= m
    ensures m == Greatest(s, init)
  {
  }

  /** The lazy insertion of the gateway, base+1, when nothing is leased yet
      (ip4_manager.go:50-55). */
  function WithGateway(n: Network, s: Sets): Sets
  {
    if s.used == {} then Sets({Succ(n.base)}, s.free) else s
  }

  /** `freeIPStorage` (ip4_manager.go:124-140): the least released address,
      or `broadcast` if none is below it, moves to the used set. */
  ghost function TakeLeast(s: Sets, broadcast: Addr): (r: (Addr, Sets))
    ensures r.0 <= broadcast && (r.0 == broadcast || r.0 in s.free)
    ensures forall x :: x in s.free ==> r.0 <= x
    ensures r.1.used == s.used + {r.0} && r.0 !in r.1.free && r.1.free + {r.0} == s.free + {r.0}
  {
    var m := Least(s.free, broadcast);
    (m, Sets(s.used + {m}, s.free - {m}))
  }

  /** `getIPStorage` (ip4_manager.go:143-178): the successor of the greatest
      used address (or of the network number) is issued unless it is the
      broadcast address, already used, or outside the network. */
  ghost function IssueNext(n: Network, s: Sets, broadcast: Addr): (r: Leasing)
    ensures r.after.free == s.free
    ensures r.grant.Granted? ==> r.grant.addr !in s.used && Contains(n, r.grant.addr)
    ensures r.grant.Granted? ==> r.after.used == s.used + {r.grant.addr}
    ensures !r.grant.Granted? ==> r.after == s
  {
    var next := Succ(Greatest(s.used, n.base));
    if next == broadcast then Leasing(Refused(NoFreeIPAddress), s)
    else if next in s.used then Leasing(NoAddress, s)
    else if Contains(n, next) then Leasing(Granted(next), Sets(s.used + {next}, s.free))
    else Leasing(Refused(IPAddressIsNotIncludedInNetwork), s)
  }

  /** `GetFreeIP` (ip4_manager.go:39-63). */
  ghost function Lease(n: Network, s: Sets): (r: Leasing)
    ensures s.used <= r.after.used && r.after.free <= s.free
    ensures s.used == {} ==> Succ(n.base) in r.after.used
    ensures r.grant.Granted? ==> r.grant.addr in r.after.used && r.grant.addr !in r.after.free
    ensures s.free != {} ==> r.grant.Granted?
  {
    var g := WithGateway(n, s);
    if g.free != {} then
      var (m, t) := TakeLeast(g, Broadcast(n));
      Leasing(Granted(m), t)
    else
      IssueNext(n, g, Broadcast(n))
  }

  /** `SetUsedIP` (ip4_manager.go:66-98). The network-address test compares
      the argument with the network number and the broadcast address. The
      code compares it with its own `ip | ^mask`: inside the network that is
      the broadcast address (`OwnBroadcast`), but an outside address whose
      host bits are all set equals it, and is refused as a network address
      instead of as not in the network. */
  function Reserve(n: Network, s: Sets, ip: Addr): (r: Updating)
    ensures r.after.free == s.free
    ensures r.outcome.Ok? <==> Contains(n, ip) && ip != n.base && ip != Broadcast(n) && ip !in s.used
    ensures r.outcome == Failed(IPIsANetworkAddress) <==> ip == n.base || ip == Broadcast(n)
    ensures r.outcome.Ok? ==> r.after.used == s.used + {ip}
    ensures !r.outcome.Ok? ==> r.after == s
  {
    if ip == Broadcast(n) || ip == n.base then Updating(Failed(IPIsANetworkAddress), s)
    else if !Contains(n, ip) then Updating(Failed(IPAddressIsNotIncludedInNetwork), s)
    else if ip in s.used then Updating(Failed(IPAddressIsUsed), s)
    else Updating(Ok, Sets(s.used + {ip}, s.free))
  }

  /** `ReleaseIP` (ip4_manager.go:101-121). */
  function Release(s: Sets, ip: Addr): (r: Updating)
    ensures r.outcome.Ok? <==> ip in s.used
    ensures r.outcome.Ok? ==> r.after == Sets(s.used - {ip}, s.free + {ip})
    ensures !r.outcome.Ok? ==> r.after == s
    ensures r.outcome == Failed(StorageIsEmpty) <==> s.used == {}
    ensures s.used != {} && ip !in s.used ==> r.outcome == Failed(IPIsNotFound)
  {
    if s.used == {} then Updating(Failed(StorageIsEmpty), s)
    else if ip in s.used then Updating(Ok, Sets(s.used - {ip}, s.free + {ip}))
    else Updating(Failed(IPIsNotFound), s)
  }

  /** An `IP4Manager`: the network `net.ParseCIDR` produced and the two maps,
      which every method updates in place (the struct is passed by value,
      but its maps are shared). */
  class AddressPool {
    const net: Network
    var used: set<Addr>
    var free: set<Addr>

    ghost function State(): Sets
      reads this
    {
      Sets(used, free)
    }

    /** `NewNetwork("ip/prefix")` (ip4_manager.go:28-36): the network with
        the host bits of `ip` cleared, and two empty maps. */
    constructor (ip: Addr, prefix: nat)
      requires prefix <= 32
      ensures net == CidrNetwork(ip, prefix)
      ensures used == {} && free == {}
    {
      net := CidrNetwork(ip, prefix);
      used, free := {}, {};
    }

    method GetFreeIP() returns (g: Grant)
      modifies this
      ensures Leasing(g, State()) == Lease(net, old(State()))
    {
      var broadcast := ComputeBroadcast(net.base, net.mask);
      if |used| == 0 {
        var gateway := NextIP(Octets(net.base), 1);
        SuccIsNextIP(net.base);
        OctetsOfPack(gateway);
        used := used + {Pack(gateway)};
      }
      if |free| != 0 {
        var a := TakeLeastFree(broadcast);
        g := Granted(a);
      } else {
        g := IssueNextFree(broadcast);
      }
    }

    /** `freeIPStorage`: a minimum search over the released addresses. */
    method TakeLeastFree(broadcast: Addr) returns (a: Addr)
      modifies this
      ensures (a, State()) == TakeLeast(old(State()), broadcast)
    {
      var minKey := broadcast;
      var rest := free;
      while rest != {}
        invariant rest <= free
        invariant minKey <= broadcast && (minKey == broadcast || minKey in free - rest)
        invariant forall x :: x in free - rest ==> minKey <= x
        decreases rest
      {
        var key :| key in rest;
        if key < minKey {
          minKey := key;
        }
        assert free - (rest - {key}) == (free - rest) + {key};
        rest := rest - {key};
      }
      assert free - rest == free;
      LeastUnique(free, broadcast, minKey);
      free := free - {minKey};
      used := used + {minKey};
      a := minKey;
    }

    /** `getIPStorage`: a maximum search over the used addresses, then the
        successor of the maximum. */
    method IssueNextFree(broadcast: Addr) returns (g: Grant)
      modifies this
      ensures Leasing(g, State()) == IssueNext(net, old(State()), broadcast)
    {
      var maxKey := net.base;
      var rest := used;
      while rest != {}
        invariant rest <= used
        invariant maxKey >= net.base && (maxKey == net.base || maxKey in used - rest)
        invariant forall x :: x in used - rest ==> x <= maxKey
        decreases rest
      {
        var key :| key in rest;
        if key > maxKey {
          maxKey := key;
        }
        assert used - (rest - {key}) == (used - rest) + {key};
        rest := rest - {key};
      }
      assert used - rest == used;
      GreatestUnique(used, net.base, maxKey);
      var nextOctets := NextIP(Octets(maxKey), 1);
      SuccIsNextIP(maxKey);
      OctetsOfPack(nextOctets);
      var next := Pack(nextOctets);
      if next == broadcast {
        return Refused(NoFreeIPAddress);
      }
      if next !in used {
        if Contains(net, next) {
          used := used + {next};
          return Granted(next);
        } else {
          return Refused(IPAddressIsNotIncludedInNetwork);
        }
      }
      g := NoAddress;
    }

    /** `SetUsedIP`: the broadcast address is computed octet by octet, here
        from the network number rather than from the argument. */
    method SetUsedIP(ip: Addr) returns (o: Outcome)
      modifies this
      ensures Updating(o, State()) == Reserve(net, old(State()), ip)
    {
      var broadcast := ComputeBroadcast(net.base, net.mask);
      if ip == broadcast || ip == net.base {
        return Failed(IPIsANetworkAddress);
      }
      if !Contains(net, ip) {
        return Failed(IPAddressIsNotIncludedInNetwork);
      }
      if ip in used {
        return Failed(IPAddressIsUsed);
      }
      used := used + {ip};
      o := Ok;
    }

    /** `ReleaseIP`: a linear search of the used addresses; the one found
        moves to the released set. */
    method ReleaseIP(ip: Addr) returns (o: Outcome)
      modifies this
      ensures Updating(o, State()) == Release(old(State()), ip)
    {
      if |used| == 0 {
        return Failed(StorageIsEmpty);
      }
      var rest := used;
      while rest != {}
        invariant rest <= used
        invariant ip !in used - rest
        invariant used == old(used) && free == old(free)
        decreases rest
      {
        var storageIP :| storageIP in rest;
        if ip == storageIP {
          used := used - {ip};
          free := free + {ip};
          return Ok;
        }
        rest := rest - {storageIP};
      }
      o := Failed(IPIsNotFound);
    }
  }
}
