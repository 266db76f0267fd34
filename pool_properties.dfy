/** What the allocator of ip4_manager.go and network.go guarantees: the pool
    invariant its operations keep, the form of each lease, the run of
    consecutive addresses it hands out, and the session of the repository's
    own test (IP4Manager_test.go:48-133, network_test.go:48-133). */
module PoolProperties {
  import opened Bits
  import opened IPv4
  import opened Pool

  /** Leased and released addresses are disjoint, and every one of them
      lies strictly between the network number and the broadcast address of
      the /p network (that is, is a host address: `InvHosts`). */
  ghost predicate Inv(n: Network, p: nat, s: Sets)
  {
    IsCidr(n, p)
    && s.used * s.free == {}
    && (forall a :: a in s.used ==> n.base < a < Broadcast(n))
    && (forall a :: a in s.free ==> n.base < a < Broadcast(n))
  }

  lemma InvHosts(n: Network, p: nat, s: Sets, a: Addr)
    requires Inv(n, p, s) && a in s.used + s.free
    ensures IsHost(n, a)
  {
    HostRange(n, p, a);
  }

  /** The addresses from lo to hi. */
  function Interval(lo: Addr, hi: int): set<Addr>
    requires hi < AddrSpace
    decreases hi - lo
  {
    if hi < lo then {} else Interval(lo, hi - 1) + {hi}
  }

  lemma {:induction false} InInterval(lo: Addr, hi: int, x: Addr)
    requires hi < AddrSpace
    ensures x in Interval(lo, hi) <==> lo <= x <= hi
    decreases hi - lo
  {
    if lo <= hi {
      InInterval(lo, hi - 1, x);
    }
  }

  /** The grants first, first+1, ..., first+k-1. */
  function RunGrants(first: int, k: nat): seq<Grant>
    requires 0 <= first && first + k <= AddrSpace
    decreases k
  {
    if k == 0 then [] else [Granted(first)] + RunGrants(first + 1, k - 1)
  }

  /** The layout of a /p network with at least two host addresses. */
  lemma Layout(n: Network, p: nat)
    requires IsCidr(n, p) && p <= 30
    ensures Broadcast(n) == n.base + Pow2(32 - p) - 1 && n.base + 3 <= Broadcast(n)
  {
    CidrLayout(n, p);
    Pow2Monotone(2, 32 - p);
    assert Pow2(2) == 4;
  }

  /** A lease keeps the invariant, and what it grants is a host address
      (ip4_manager.go:50-61, 124-140, 143-178). */
  lemma LeasePreservesInv(n: Network, p: nat, s: Sets)
    requires Inv(n, p, s) && p <= 30
    ensures Inv(n, p, Lease(n, s).after)
    ensures Lease(n, s).grant.Granted? ==> IsHost(n, Lease(n, s).grant.addr)
  {
    Layout(n, p);
    if s.free != {} {
      TakeLeastPreservesInv(n, p, s);
    } else {
      IssuePreservesInv(n, p, WithGateway(n, s));
    }
    var r := Lease(n, s);
    if r.grant.Granted? {
      HostRange(n, p, r.grant.addr);
    }
  }

  lemma TakeLeastPreservesInv(n: Network, p: nat, s: Sets)
    requires Inv(n, p, s) && p <= 30 && s.free != {}
    ensures Inv(n, p, TakeLeast(WithGateway(n, s), Broadcast(n)).1)
    ensures var m := TakeLeast(WithGateway(n, s), Broadcast(n)).0; n.base < m < Broadcast(n)
  {
    Layout(n, p);
    var bc := Broadcast(n);
    var m := Least(s.free, bc);
    var x :| x in s.free;
    assert m in s.free;
    if s.used == {} && Succ(n.base) in s.free {
      assert m == n.base + 1;
    }
  }

  lemma IssuePreservesInv(n: Network, p: nat, g: Sets)
    requires Inv(n, p, g) && p <= 30 && g.free == {}
    ensures Inv(n, p, IssueNext(n, g, Broadcast(n)).after)
    ensures var r := IssueNext(n, g, Broadcast(n)); r.grant.Granted? ==> n.base < r.grant.addr < Broadcast(n)
  {
    Layout(n, p);
    var top := Greatest(g.used, n.base);
    assert n.base <= top < Broadcast(n);
  }

  /** A lease never grants an address that was already leased
      (ip4_manager.go:124-140, 164-170). */
  lemma LeaseIsFresh(n: Network, p: nat, s: Sets)
    requires Inv(n, p, s)
    ensures Lease(n, s).grant.Granted? ==> Lease(n, s).grant.addr !in s.used
  {
    var g := WithGateway(n, s);
    if g.free != {} {
      var r := TakeLeast(g, Broadcast(n));
      assert Lease(n, s).grant == Granted(r.0);
      var x :| x in g.free;
      assert r.0 <= x < Broadcast(n);
      assert r.0 in s.free && r.0 !in s.used * s.free;
    }
  }

  /** With nothing leased, a lease first reserves the gateway base+1, which
      it does not hand out unless it was released before
      (ip4_manager.go:50-55). */
  lemma GatewayReserved(n: Network, p: nat, s: Sets)
    requires Inv(n, p, s) && s.used == {} && Succ(n.base) !in s.free
    ensures Succ(n.base) in Lease(n, s).after.used
    ensures Lease(n, s).grant != Granted(Succ(n.base))
  {
    var g := WithGateway(n, s);
    if g.free != {} {
      var m := Least(g.free, Broadcast(n));
      var x :| x in g.free;
      assert m in s.free;
    }
  }

  /** With released addresses available, a lease hands out the least of
      them and moves it to the used set; nothing else changes but the lazy
      gateway (ip4_manager.go:57-59, 124-140). */
  lemma LeaseTakesLeastFree(n: Network, p: nat, s: Sets)
    requires Inv(n, p, s) && s.free != {}
    ensures Lease(n, s).grant.Granted?
    ensures var a := Lease(n, s).grant.addr;
      a in s.free && (forall x :: x in s.free ==> a <= x)
      && Lease(n, s).after == Sets(WithGateway(n, s).used + {a}, s.free - {a})
  {
    var m := Least(s.free, Broadcast(n));
    var x :| x in s.free;
  }

  /** With nothing released, the pool issues one past the greatest used
      address; it reports no free address exactly when the last host address
      (the one below the broadcast) is used, and otherwise grants a fresh
      host address (ip4_manager.go:143-178). */
  lemma LeaseIssuesNext(n: Network, p: nat, s: Sets)
    requires Inv(n, p, s) && p <= 30 && s.free == {}
    ensures var r, g := Lease(n, s), WithGateway(n, s);
      (r.grant == Refused(NoFreeIPAddress) <==> Broadcast(n) - 1 in g.used)
      && (r.grant.Granted? <==> Broadcast(n) - 1 !in g.used)
      && (r.grant.Granted? ==>
            r.grant.addr == Greatest(g.used, n.base) + 1 && IsHost(n, r.grant.addr)
            && r.grant.addr !in g.used && r.after == Sets(g.used + {r.grant.addr}, {}))
      && (!r.grant.Granted? ==> r.after == g)
  {
    Layout(n, p);
    var g := WithGateway(n, s);
    var bc := Broadcast(n);
    var top := Greatest(g.used, n.base);
    assert n.base <= top < bc;
    var next := Succ(top);
    assert next == top + 1;
    HostRange(n, p, next);
    assert Lease(n, s) == IssueNext(n, g, bc);
    if bc - 1 in g.used {
      assert top == bc - 1;
    } else {
      assert next < bc && next !in g.used;
    }
  }

  /** Leasing after a run of consecutive used addresses base+1 .. m extends
      the run by m+1, or reports no free address once the run reaches the
      broadcast (network.go:143-170). */
  lemma LeaseExtendsRun(n: Network, p: nat, m: int)
    requires IsCidr(n, p) && p <= 30 && n.base + 1 <= m < Broadcast(n)
    ensures m + 1 < Broadcast(n) ==>
      Lease(n, Sets(Interval(n.base + 1, m), {})) == Leasing(Granted(m + 1), Sets(Interval(n.base + 1, m + 1), {}))
    ensures m + 1 == Broadcast(n) ==>
      Lease(n, Sets(Interval(n.base + 1, m), {})) == Leasing(Refused(NoFreeIPAddress), Sets(Interval(n.base + 1, m), {}))
  {
    Layout(n, p);
    var run := Interval(n.base + 1, m);
    var bc := Broadcast(n);
    RunTop(n.base, m);
    assert Lease(n, Sets(run, {})) == IssueNext(n, Sets(run, {}), bc);
    assert Succ(Greatest(run, n.base)) == m + 1;
    if m + 1 < bc {
      ContainsRange(n, p, m + 1);
      assert Interval(n.base + 1, m + 1) == run + {m + 1};
      assert IssueNext(n, Sets(run, {}), bc) == Leasing(Granted(m + 1), Sets(run + {m + 1}, {}));
    }
  }

  /** The greatest address of the run base+1 .. m is m. */
  lemma RunTop(base: Addr, m: int)
    requires base + 1 <= m < AddrSpace
    ensures m in Interval(base + 1, m) && Greatest(Interval(base + 1, m), base) == m
    ensures m + 1 !in Interval(base + 1, m)
  {
    var run := Interval(base + 1, m);
    InInterval(base + 1, m, m);
    if m + 1 < AddrSpace {
      InInterval(base + 1, m, m + 1);
    }
    forall x | x in run
      ensures x <= m
    {
      InInterval(base + 1, m, x);
    }
    GreatestUnique(run, base, m);
  }

  /** The grants of k leases in a row, and the sets after them. */
  ghost function Leases(n: Network, s: Sets, k: nat): (r: (seq<Grant>, Sets))
    ensures |r.0| == k
    decreases k
  {
    if k == 0 then ([], s)
    else
      var l := Lease(n, s);
      var rest := Leases(n, l.after, k - 1);
      ([l.grant] + rest.0, rest.1)
  }

  lemma RunFrom(n: Network, p: nat, m: int, k: nat)
    requires IsCidr(n, p) && p <= 30 && n.base + 1 <= m && m + k < Broadcast(n)
    ensures Leases(n, Sets(Interval(n.base + 1, m), {}), k) == (RunGrants(m + 1, k), Sets(Interval(n.base + 1, m + k), {}))
  {
    RunSteps(n, p, n.base + 1, m, k);
    var st := RunStates(n, n.base + 1, m, k);
    LeasesFollow(n, st, m + 1, k);
  }

  /** The lease after the run lo .. j grants j+1 and extends the run. */
  ghost predicate Extends(n: Network, lo: Addr, j: int)
    requires lo <= j && j + 1 < AddrSpace
  {
    Lease(n, Sets(Interval(lo, j), {})) == Leasing(Granted(j + 1), Sets(Interval(lo, j + 1), {}))
  }

  /** In a /p network, the runs base+1 .. j below the last host address
      are extended one address at a time. */
  lemma RunSteps(n: Network, p: nat, lo: Addr, m: int, k: nat)
    requires IsCidr(n, p) && p <= 30 && lo == n.base + 1 <= m && m + k < Broadcast(n)
    ensures forall j :: m <= j < m + k ==> Extends(n, lo, j)
  {
    forall j | m <= j < m + k
      ensures Extends(n, lo, j)
    {
      LeaseExtendsRun(n, p, j);
    }
  }

  /** The runs lo .. m, ..., lo .. m+k as a sequence of states, each taken
      to the next by one lease. */
  lemma RunStates(n: Network, lo: Addr, m: int, k: nat) returns (st: seq<Sets>)
    requires lo <= m && m + k + 1 < AddrSpace
    requires forall j :: m <= j < m + k ==> Extends(n, lo, j)
    ensures |st| == k + 1 && st[0] == Sets(Interval(lo, m), {}) && st[k] == Sets(Interval(lo, m + k), {})
    ensures forall i :: 0 <= i < k ==> Lease(n, st[i]) == Leasing(Granted(m + 1 + i), st[i + 1])
  {
    st := seq(k + 1, i requires 0 <= i <= k => Sets(Interval(lo, m + i), {}));
    forall i | 0 <= i < k
      ensures Lease(n, st[i]) == Leasing(Granted(m + 1 + i), st[i + 1])
    {
      assert Extends(n, lo, m + i);
    }
  }

  /** If the i-th lease takes st[i] to st[i+1] granting first + i, then k
      leases from st[0] grant first .. first+k-1 and end in st[k]. */
  lemma {:induction false} LeasesFollow(n: Network, st: seq<Sets>, first: nat, k: nat)
    requires |st| == k + 1 && first + k <= AddrSpace
    requires forall i :: 0 <= i < k ==> Lease(n, st[i]) == Leasing(Granted(first + i), st[i + 1])
    ensures Leases(n, st[0], k) == (RunGrants(first, k), st[k])
    decreases k
  {
    if k > 0 {
      assert Lease(n, st[0]) == Leasing(Granted(first + 0), st[1]);
      LeasesFollow(n, st[1..], first + 1, k - 1);
      GrantThenRun(n, st[0], st[1], st[k], first, k);
    }
  }

  /** A lease granting `first` followed by a run from `first + 1` is a run
      from `first`. */
  lemma GrantThenRun(n: Network, s0: Sets, s1: Sets, last: Sets, first: nat, k: nat)
    requires k > 0 && first + k <= AddrSpace
    requires Lease(n, s0) == Leasing(Granted(first), s1)
    requires Leases(n, s1, k - 1) == (RunGrants(first + 1, k - 1), last)
    ensures Leases(n, s0, k) == (RunGrants(first, k), last)
  {
    LeasesStep(n, s0, Granted(first), s1, k);
    RunGrantsCons(first, k);
  }

  /** A lease that takes s0 to s1 with grant g starts every sequence of
      leases from s0. */
  lemma LeasesStep(n: Network, s0: Sets, g: Grant, s1: Sets, k: nat)
    requires k > 0 && Lease(n, s0) == Leasing(g, s1)
    ensures Leases(n, s0, k) == ([g] + Leases(n, s1, k - 1).0, Leases(n, s1, k - 1).1)
  {
    LeasesCons(n, s0, k);
  }

  lemma LeasesCons(n: Network, s: Sets, k: nat)
    requires k > 0
    ensures var l := Lease(n, s);
      Leases(n, s, k) == ([l.grant] + Leases(n, l.after, k - 1).0, Leases(n, l.after, k - 1).1)
  {
  }

  /** From a fresh pool, the first k leases hand out base+2, base+3, ...,
      base+k+1 in order, with the gateway and those k addresses used
      (network.go:50-61, 143-170; IP4Manager_test.go:51-67). */
  lemma SequentialLeases(n: Network, p: nat, k: nat)
    requires IsCidr(n, p) && p <= 30 && 1 <= k <= Pow2(32 - p) - 3
    ensures Leases(n, Sets({}, {}), k) == (RunGrants(n.base + 2, k), Sets(Interval(n.base + 1, n.base + k + 1), {}))
  {
    Layout(n, p);
    var b := n.base;
    FirstLease(n, p);
    LeasesCons(n, Sets({}, {}), k);
    RunFrom(n, p, b + 2, k - 1);
    RunGrantsCons(b + 2, k);
  }

  lemma RunGrantsCons(first: int, k: nat)
    requires 0 <= first && first + k <= AddrSpace && k > 0
    ensures RunGrants(first, k) == [Granted(first)] + RunGrants(first + 1, k - 1)
  {
  }

  /** The first lease of a fresh pool reserves the gateway base+1 and grants
      base+2. */
  lemma FirstLease(n: Network, p: nat)
    requires IsCidr(n, p) && p <= 30
    ensures n.base + 2 < Broadcast(n)
    ensures Lease(n, Sets({}, {})) == Leasing(Granted(n.base + 2), Sets(Interval(n.base + 1, n.base + 2), {}))
  {
    Layout(n, p);
    assert Interval(n.base + 1, n.base + 1) == {Succ(n.base)};
    assert Lease(n, Sets({}, {})) == Lease(n, Sets(Interval(n.base + 1, n.base + 1), {}));
    LeaseExtendsRun(n, p, n.base + 1);
  }

  /** A /p network hands out its 2^(32-p) - 3 addresses from base+2 to the
      one below the broadcast, and the lease after them reports no free
      address (ip4_manager.go:155-161). */
  lemma PoolExhaustion(n: Network, p: nat)
    requires IsCidr(n, p) && p <= 30
    ensures Pow2(32 - p) >= 4
    ensures var t := Leases(n, Sets({}, {}), Pow2(32 - p) - 3).1;
      Lease(n, t) == Leasing(Refused(NoFreeIPAddress), t)
  {
    Layout(n, p);
    var k := Pow2(32 - p) - 3;
    SequentialLeases(n, p, k);
    LeaseExtendsRun(n, p, Broadcast(n) - 1);
  }

  /** Releasing keeps the invariant (ip4_manager.go:113-114). */
  lemma ReleasePreservesInv(n: Network, p: nat, s: Sets, ip: Addr)
    requires Inv(n, p, s)
    ensures Inv(n, p, Release(s, ip).after)
  {
  }

  /** `SetUsedIP` never looks at the released set, so it keeps the
      invariant only for an address that is not released
      (ip4_manager.go:86-95). */
  lemma ReservePreservesInv(n: Network, p: nat, s: Sets, ip: Addr)
    requires Inv(n, p, s) && ip !in s.free
    ensures Inv(n, p, Reserve(n, s, ip).after)
  {
    if Reserve(n, s, ip).outcome.Ok? {
      OwnBroadcast(n, p, ip);
      ContainsRange(n, p, ip);
    }
  }

  /** The outcome of `SetUsedIP` in a /p network: the network number and the
      broadcast are network addresses; a host address is accepted unless it
      is used; an outside address is rejected as not included
      (ip4_manager.go:66-98; IP4Manager_test.go:69-93). */
  lemma ReserveOutcome(n: Network, p: nat, s: Sets, ip: Addr)
    requires IsCidr(n, p)
    ensures ip == n.base || ip == Broadcast(n) ==> Reserve(n, s, ip).outcome == Failed(IPIsANetworkAddress)
    ensures IsHost(n, ip) ==>
      Reserve(n, s, ip).outcome == (if ip in s.used then Failed(IPAddressIsUsed) else Ok)
    ensures !Contains(n, ip) ==> Reserve(n, s, ip).outcome == Failed(IPAddressIsNotIncludedInNetwork)
    ensures Reserve(n, s, ip).outcome.Ok? <==> IsHost(n, ip) && ip !in s.used
  {
    CidrLayout(n, p);
    ContainsRange(n, p, ip);
    HostRange(n, p, ip);
    if Contains(n, ip) {
      OwnBroadcast(n, p, ip);
    }
  }

  /** Lease A, release A, lease again: A comes back (network.go:101-140). */
  lemma ReleaseThenLease(n: Network, p: nat, s: Sets)
    requires Inv(n, p, s) && p <= 30 && s.free == {} && Lease(n, s).grant.Granted?
    ensures var a := Lease(n, s).grant.addr;
      var t := Release(Lease(n, s).after, a);
      t.outcome == Ok && t.after.free == {a} && Lease(n, t.after).grant == Granted(a)
  {
    Layout(n, p);
    LeaseIssuesNext(n, p, s);
    var a := Lease(n, s).grant.addr;
    var g := WithGateway(n, s);
    var t := Release(Lease(n, s).after, a);
    var old_ :| old_ in g.used;
    assert old_ in t.after.used;
    LeastUnique({a}, Broadcast(n), a);
  }

  /** `SetUsedIP` on a released address puts it in both sets, and the next
      lease hands it out although it is already used
      (ip4_manager.go:86-95, 124-140). */
  lemma ReserveReleasedLeasesTwice(n: Network, p: nat)
    requires IsCidr(n, p) && p <= 30
    ensures var x := Broadcast(n) - 1;
      var s := Sets({n.base + 1}, {x});
      var r := Reserve(n, s, x);
      r.outcome == Ok && x in r.after.used * r.after.free
      && Lease(n, r.after).grant == Granted(x)
  {
    Layout(n, p);
    var x := Broadcast(n) - 1;
    HostRange(n, p, x);
    ReserveOutcome(n, p, Sets({n.base + 1}, {x}), x);
    LeastUnique({x}, Broadcast(n), x);
  }
}
