/** The session the repository's test runs against the allocator
    (IP4Manager_test.go:9-133, network_test.go:9-133): three leases, five
    reservations, three releases and four more leases, each with the address
    or error the test expects. The trace is proved for every /p network with
    at least 16 addresses, and then for the test's 172.16.0.0/16. */
module PoolSession {
  import opened Bits
  import opened IPv4
  import opened Pool
  import opened PoolProperties

  /** `SetUsedIP` on each address in turn. */
  function Reservations(n: Network, s: Sets, ips: seq<Addr>): (r: (seq<Outcome>, Sets))
    ensures |r.0| == |ips|
    decreases |ips|
  {
    if ips == [] then ([], s)
    else
      var u := Reserve(n, s, ips[0]);
      var rest := Reservations(n, u.after, ips[1..]);
      ([u.outcome] + rest.0, rest.1)
  }

  /** `ReleaseIP` on each address in turn. */
  function Releases(s: Sets, ips: seq<Addr>): (r: (seq<Outcome>, Sets))
    ensures |r.0| == |ips|
    decreases |ips|
  {
    if ips == [] then ([], s)
    else
      var u := Release(s, ips[0]);
      var rest := Releases(u.after, ips[1..]);
      ([u.outcome] + rest.0, rest.1)
  }

  /** What each of the four phases of a session returns. */
  datatype Transcript = Transcript(leased: seq<Grant>, reserved: seq<Outcome>, released: seq<Outcome>, leasedAgain: seq<Grant>)

  /** Three leases on a fresh pool, the reservations, the releases, and four
      leases, each phase starting from the sets the previous one left. */
  ghost function RunSession(n: Network, reserve: seq<Addr>, release: seq<Addr>): Transcript
  {
    var leased := Leases(n, Sets({}, {}), 3);
    var reserved := Reservations(n, leased.1, reserve);
    var released := Releases(reserved.1, release);
    Transcript(leased.0, reserved.0, released.0, Leases(n, released.1, 4).0)
  }

  /** A /p network with p <= 28 has room for the eight addresses the
      session touches below its broadcast address. */
  lemma Room(n: Network, p: nat)
    requires IsCidr(n, p) && p <= 28
    ensures Broadcast(n) == n.base + Pow2(32 - p) - 1 && n.base + 8 < Broadcast(n)
  {
    Layout(n, p);
    Pow2Monotone(4, 32 - p);
    assert Pow2(4) == 16;
  }

  lemma LeasePhase(n: Network, p: nat)
    requires IsCidr(n, p) && p <= 28
    ensures n.base + 8 < Broadcast(n)
    ensures Leases(n, Sets({}, {}), 3)
            == ([Granted(n.base + 2), Granted(n.base + 3), Granted(n.base + 4)], Sets(Interval(n.base + 1, n.base + 4), {}))
  {
    Room(n, p);
    var b := n.base;
    ThreeGrants(b + 2);
    SequentialLeases(n, p, 3);
    var r := Leases(n, Sets({}, {}), 3);
    assert r.0 == RunGrants(b + 2, 3);
    assert r.1 == Sets(Interval(b + 1, b + 4), {});
  }

  lemma ReservePhase(n: Network, p: nat, o: Addr)
    requires IsCidr(n, p) && p <= 28
    requires !Contains(n, o)
    ensures n.base + 8 < Broadcast(n)
    ensures Reservations(n, Sets(Interval(n.base + 1, n.base + 4), {}),
                         [n.base + 5, n.base, Broadcast(n), n.base + 3, o])
            == ([Ok, Failed(IPIsANetworkAddress), Failed(IPIsANetworkAddress), Failed(IPAddressIsUsed),
                 Failed(IPAddressIsNotIncludedInNetwork)],
                Sets(Interval(n.base + 1, n.base + 5), {}))
  {
    Room(n, p);
    var b := n.base;
    var s1 := Sets(Interval(b + 1, b + 4), {});
    var s2 := Sets(Interval(b + 1, b + 5), {});
    assert Reserve(n, s1, b + 5) == Updating(Ok, s2) by {
      HostRange(n, p, b + 5);
      InInterval(b + 1, b + 4, b + 5);
      ReserveOutcome(n, p, s1, b + 5);
    }
    assert Reserve(n, s2, b) == Updating(Failed(IPIsANetworkAddress), s2) by {
      ReserveOutcome(n, p, s2, b);
    }
    assert Reserve(n, s2, Broadcast(n)) == Updating(Failed(IPIsANetworkAddress), s2) by {
      ReserveOutcome(n, p, s2, Broadcast(n));
    }
    assert Reserve(n, s2, b + 3) == Updating(Failed(IPAddressIsUsed), s2) by {
      HostRange(n, p, b + 3);
      InInterval(b + 1, b + 5, b + 3);
      ReserveOutcome(n, p, s2, b + 3);
    }
    assert Reserve(n, s2, o) == Updating(Failed(IPAddressIsNotIncludedInNetwork), s2) by {
      ReserveOutcome(n, p, s2, o);
    }
    ReservationChain(n, s1, s2, [b + 5, b, Broadcast(n), b + 3, o],
      [Ok, Failed(IPIsANetworkAddress), Failed(IPIsANetworkAddress), Failed(IPAddressIsUsed),
       Failed(IPAddressIsNotIncludedInNetwork)]);
  }

  /** Reservations whose first moves the sets from s1 to s2 and whose
      others leave s2 as it is. */
  lemma ReservationChain(n: Network, s1: Sets, s2: Sets, ips: seq<Addr>, outs: seq<Outcome>)
    requires |ips| == |outs| > 0
    requires Reserve(n, s1, ips[0]) == Updating(outs[0], s2)
    requires forall i :: 1 <= i < |ips| ==> Reserve(n, s2, ips[i]) == Updating(outs[i], s2)
    ensures Reservations(n, s1, ips) == (outs, s2)
  {
    ReservationsStay(n, s2, ips[1..], outs[1..]);
    ReservationsStep(n, s1, ips);
    assert outs == [outs[0]] + outs[1..];
  }

  /** Reservations that each leave s2 as it is. */
  lemma {:induction false} ReservationsStay(n: Network, s2: Sets, ips: seq<Addr>, outs: seq<Outcome>)
    requires |ips| == |outs|
    requires forall i :: 0 <= i < |ips| ==> Reserve(n, s2, ips[i]) == Updating(outs[i], s2)
    ensures Reservations(n, s2, ips) == (outs, s2)
    decreases |ips|
  {
    if ips != [] {
      assert Reserve(n, s2, ips[0]) == Updating(outs[0], s2);
      ReservationsStay(n, s2, ips[1..], outs[1..]);
      ReservationsStep(n, s2, ips);
      assert outs == [outs[0]] + outs[1..];
    }
  }

  lemma ReservationsStep(n: Network, s: Sets, ips: seq<Addr>)
    requires ips != []
    ensures var u := Reserve(n, s, ips[0]);
      Reservations(n, s, ips) == ([u.outcome] + Reservations(n, u.after, ips[1..]).0, Reservations(n, u.after, ips[1..]).1)
  {
  }

  /** The sets after the two releases. */
  function Released(b: Addr): Sets
    requires b + 5 < AddrSpace
  {
    Sets(Interval(b + 1, b + 5) - {b + 2} - {b + 3}, {b + 2, b + 3})
  }

  lemma ReleasePhase(b: Addr, o: Addr)
    requires b + 5 < AddrSpace && !(b + 1 <= o <= b + 5)
    ensures Releases(Sets(Interval(b + 1, b + 5), {}), [b + 2, b + 3, o])
            == ([Ok, Ok, Failed(IPIsNotFound)], Released(b))
  {
    var s0 := Interval(b + 1, b + 5);
    InInterval(b + 1, b + 5, b + 1);
    InInterval(b + 1, b + 5, b + 2);
    InInterval(b + 1, b + 5, b + 3);
    InInterval(b + 1, b + 5, o);
    var t1 := Sets(s0 - {b + 2}, {b + 2});
    assert Release(Sets(s0, {}), b + 2) == Updating(Ok, t1) by {
      assert {} + {b + 2} == {b + 2};
    }
    assert Release(t1, b + 3) == Updating(Ok, Released(b)) by {
      assert {b + 2} + {b + 3} == {b + 2, b + 3};
      assert b + 1 in t1.used;
    }
    assert Release(Released(b), o) == Updating(Failed(IPIsNotFound), Released(b)) by {
      assert b + 1 in Released(b).used;
    }
    var ips: seq<Addr> := [b + 2, b + 3, o];
    ReleasesStep(Released(b), ips[2..]);
    assert ips[2..][1..] == [];
    var last: seq<Outcome> := [Failed(IPIsNotFound)];
    assert last + [] == last;
    assert Releases(Released(b), ips[2..]) == ([Failed(IPIsNotFound)], Released(b));
    ReleasesStep(t1, ips[1..]);
    assert ips[1..][1..] == ips[2..];
    var tail: seq<Outcome> := [Ok] + last;
    assert tail == [Ok, Failed(IPIsNotFound)];
    assert Releases(t1, ips[1..]) == (tail, Released(b));
    ReleasesStep(Sets(s0, {}), ips);
    assert [Ok] + tail == [Ok, Ok, Failed(IPIsNotFound)];
  }

  lemma ReleasesStep(s: Sets, ips: seq<Addr>)
    requires ips != []
    ensures var u := Release(s, ips[0]);
      Releases(s, ips) == ([u.outcome] + Releases(u.after, ips[1..]).0, Releases(u.after, ips[1..]).1)
  {
  }

  lemma LeaseAgainPhase(n: Network, p: nat)
    requires IsCidr(n, p) && p <= 28
    ensures n.base + 8 < Broadcast(n)
    ensures Leases(n, Released(n.base), 4).0
            == [Granted(n.base + 2), Granted(n.base + 3), Granted(n.base + 6), Granted(n.base + 7)]
  {
    Room(n, p);
    var b := n.base;
    var s0 := Released(b);
    var s1 := Sets(s0.used + {b + 2}, {b + 3});
    var s2 := Sets(Interval(b + 1, b + 5), {});
    LeaseReleasedFirst(n, p);
    LeaseReleasedSecond(n, p);
    TwoLeases(n, s0, s1, s2, 2);
    RunFrom(n, p, b + 5, 2);
    TwoGrants(b + 6);
    var all := [Granted(b + 2), Granted(b + 3)] + Leases(n, s2, 2).0;
    assert all == [Granted(b + 2), Granted(b + 3), Granted(b + 6), Granted(b + 7)];
  }

  lemma TwoGrants(first: Addr)
    requires first + 2 <= AddrSpace
    ensures RunGrants(first, 2) == [Granted(first), Granted(first + 1)]
  {
    var last: seq<Grant> := [Granted(first + 1)];
    assert RunGrants(first + 1, 1) == last + [];
    assert last + [] == last;
  }

  lemma ThreeGrants(first: Addr)
    requires first + 3 <= AddrSpace
    ensures RunGrants(first, 3) == [Granted(first), Granted(first + 1), Granted(first + 2)]
  {
    TwoGrants(first + 1);
  }

  /** Two leases that take s0 to s1 and s1 to s2 start every longer
      sequence of leases from s0. */
  lemma TwoLeases(n: Network, s0: Sets, s1: Sets, s2: Sets, k: nat)
    requires Lease(n, s0).after == s1 && Lease(n, s1).after == s2
    ensures Leases(n, s0, k + 2).0 == [Lease(n, s0).grant, Lease(n, s1).grant] + Leases(n, s2, k).0
  {
    LeasesCons(n, s0, k + 2);
    LeasesCons(n, s1, k + 1);
  }

  /** After the releases, the first lease takes the lesser released address. */
  lemma LeaseReleasedFirst(n: Network, p: nat)
    requires IsCidr(n, p) && p <= 28
    ensures n.base + 8 < Broadcast(n)
    ensures Lease(n, Released(n.base)) == Leasing(Granted(n.base + 2), Sets(Released(n.base).used + {n.base + 2}, {n.base + 3}))
  {
    Room(n, p);
    var b := n.base;
    var s0 := Released(b);
    InInterval(b + 1, b + 5, b + 1);
    assert b + 1 in s0.used;
    LeastUnique(s0.free, Broadcast(n), b + 2);
    assert s0.free - {b + 2} == {b + 3};
  }

  /** The second lease takes the other released address, which closes the
      run base+1 .. base+5 again. */
  lemma LeaseReleasedSecond(n: Network, p: nat)
    requires IsCidr(n, p) && p <= 28
    ensures n.base + 8 < Broadcast(n)
    ensures Lease(n, Sets(Released(n.base).used + {n.base + 2}, {n.base + 3}))
            == Leasing(Granted(n.base + 3), Sets(Interval(n.base + 1, n.base + 5), {}))
  {
    Room(n, p);
    var b := n.base;
    var s1 := Sets(Released(b).used + {b + 2}, {b + 3});
    InInterval(b + 1, b + 5, b + 1);
    assert b + 1 in s1.used;
    LeastUnique(s1.free, Broadcast(n), b + 3);
    assert s1.free - {b + 3} == {};
    InInterval(b + 1, b + 5, b + 2);
    InInterval(b + 1, b + 5, b + 3);
    var run := Interval(b + 1, b + 5);
    assert run - {b + 2} - {b + 3} + {b + 2} + {b + 3} == run;
  }

  /** The whole session on any /p network with p <= 28, given an address
      outside it. */
  lemma SessionTrace(n: Network, p: nat, o: Addr)
    requires IsCidr(n, p) && p <= 28
    requires !Contains(n, o)
    ensures n.base + 8 < Broadcast(n)
    ensures RunSession(n, [n.base + 5, n.base, Broadcast(n), n.base + 3, o], [n.base + 2, n.base + 3, o])
            == Transcript(
                 [Granted(n.base + 2), Granted(n.base + 3), Granted(n.base + 4)],
                 [Ok, Failed(IPIsANetworkAddress), Failed(IPIsANetworkAddress), Failed(IPAddressIsUsed),
                  Failed(IPAddressIsNotIncludedInNetwork)],
                 [Ok, Ok, Failed(IPIsNotFound)],
                 [Granted(n.base + 2), Granted(n.base + 3), Granted(n.base + 6), Granted(n.base + 7)])
  {
    var b := n.base;
    Room(n, p);
    var s1 := Sets(Interval(b + 1, b + 4), {});
    var s2 := Sets(Interval(b + 1, b + 5), {});
    assert Leases(n, Sets({}, {}), 3) == ([Granted(b + 2), Granted(b + 3), Granted(b + 4)], s1) by {
      LeasePhase(n, p);
    }
    assert Reservations(n, s1, [b + 5, b, Broadcast(n), b + 3, o])
           == ([Ok, Failed(IPIsANetworkAddress), Failed(IPIsANetworkAddress), Failed(IPAddressIsUsed),
                Failed(IPAddressIsNotIncludedInNetwork)], s2) by {
      ReservePhase(n, p, o);
    }
    assert Releases(s2, [b + 2, b + 3, o]) == ([Ok, Ok, Failed(IPIsNotFound)], Released(b)) by {
      ContainsRange(n, p, o);
      ReleasePhase(b, o);
    }
    assert Leases(n, Released(b), 4).0 == [Granted(b + 2), Granted(b + 3), Granted(b + 6), Granted(b + 7)] by {
      LeaseAgainPhase(n, p);
    }
  }

  /** 172.16.0.0, the network number of the test's 172.16.0.0/16. */
  const TestBase: Addr := 0xAC10_0000

  /** 192.168.0.6, the address outside the network the test reserves and
      releases. */
  const Outsider: Addr := 0xC0A8_0006

  /** `NewNetwork("172.16.0.0/16")`. */
  function TestNetwork(): Network
  {
    CidrNetwork(TestBase, 16)
  }

  lemma Pow16()
    ensures Pow2(16) == 0x1_0000
  {
    Pow2Of32();
  }

  /** 172.16.0.0/16 runs up to 172.16.255.255, and 192.168.0.6 is outside it
      with host bits that are not all set, so the test's outsider is not one
      that ip4_manager.go:73-78 misreports as a network address. */
  lemma TestNetworkFacts()
    ensures IsCidr(TestNetwork(), 16) && TestNetwork().base == TestBase
    ensures Broadcast(TestNetwork()) == TestBase + 0xFFFF
    ensures !Contains(TestNetwork(), Outsider) && Outsider != Or(Outsider, Not32(TestNetwork().mask))
  {
    Pow16();
    AlignedNetwork(TestBase, 16, 0x1_0000);
    ContainsRange(TestNetwork(), 16, Outsider);
    OrLowOnes(0xC0A8, 6, 16);
  }

  /** The test's session on 172.16.0.0/16: leases .0.2, .0.3, .0.4; then
      reserving .0.5 succeeds, .0.0 and .255.255 are network addresses, .0.3
      is used and 192.168.0.6 is not in the network; releasing .0.2 and .0.3
      succeeds and 192.168.0.6 is not found; the next leases return the
      released .0.2 and .0.3 and then .0.6 and .0.7. */
  lemma ReferenceTrace()
    ensures RunSession(TestNetwork(),
              [TestBase + 5, TestBase, TestBase + 0xFFFF, TestBase + 3, Outsider],
              [TestBase + 2, TestBase + 3, Outsider])
            == Transcript(
                 [Granted(TestBase + 2), Granted(TestBase + 3), Granted(TestBase + 4)],
                 [Ok, Failed(IPIsANetworkAddress), Failed(IPIsANetworkAddress), Failed(IPAddressIsUsed),
                  Failed(IPAddressIsNotIncludedInNetwork)],
                 [Ok, Ok, Failed(IPIsNotFound)],
                 [Granted(TestBase + 2), Granted(TestBase + 3), Granted(TestBase + 6), Granted(TestBase + 7)])
  {
    TestNetworkFacts();
    SessionTrace(TestNetwork(), 16, Outsider);
  }
}
