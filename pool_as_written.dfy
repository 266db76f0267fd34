/** The allocator as ip4_manager.go and network.go actually compare
    addresses. Four places look only at the last two octets of the keys
    (ip4_manager.go:78, 129, 149 and 159), and a failed lease outside the
    network unlocks a mutex that is not locked (ip4_manager.go:172), which
    ends the Go program. The model in pool.dfy compares whole addresses and
    returns the error instead; this module states where the two agree and
    gives, for each difference, an input that shows it.

    Go's `range` over a map visits the keys in an unspecified order, so the
    two search loops are folds over a sequence `order` of the keys. */
module PoolAsWritten {
  import opened Bits
  import opened IPv4
  import opened Pool
  import opened PoolProperties

  /** `a[2]`, the third octet. */
  function Third(a: Addr): int
  {
    (a / 0x100) % 0x100
  }

  /** `a[3]`, the last octet. */
  function Fourth(a: Addr): int
  {
    a % 0x100
  }

  /** The test of `freeIPStorage` (ip4_manager.go:129). */
  predicate Below(key: Addr, min: Addr)
  {
    Third(key) <= Third(min) && Fourth(key) < Fourth(min)
  }

  /** The test of `getIPStorage` (ip4_manager.go:149). */
  predicate Above(key: Addr, max: Addr)
  {
    Third(key) >= Third(max) && Fourth(key) > Fourth(max)
  }

  /** Equality on the last two octets (ip4_manager.go:78, 159). */
  predicate PairEq(a: Addr, b: Addr)
  {
    Third(a) == Third(b) && Fourth(a) == Fourth(b)
  }

  /** `order` visits every key of `s` exactly once. */
  ghost predicate Enumerates(order: seq<Addr>, s: set<Addr>)
  {
    (forall x :: x in order <==> x in s)
    && (forall i, j :: 0 <= i < j < |order| ==> order[i] != order[j])
  }

  /** The loop of `freeIPStorage`: starting from `cur`, each key that passes
      `Below` replaces it. The result is `cur` or a key below it, and no key
      is below the result. */
  function MinAsWritten(order: seq<Addr>, cur: Addr): (m: Addr)
    ensures m == cur || m in order
    ensures m == cur || Below(m, cur)
    ensures forall x :: x in order ==> !Below(x, m)
    decreases |order|
  {
    if order == [] then cur
    else
      var next := if Below(order[0], cur) then order[0] else cur;
      var m := MinAsWritten(order[1..], next);
      assert forall x :: x in order ==> x == order[0] || x in order[1..];
      m
  }

  /** The loop of `getIPStorage`: starting from `cur`, each key that passes
      `Above` replaces it. The result is `cur` or a key above it, and no key
      is above the result. */
  function MaxAsWritten(order: seq<Addr>, cur: Addr): (m: Addr)
    ensures m == cur || m in order
    ensures m == cur || Above(m, cur)
    ensures forall x :: x in order ==> !Above(x, m)
    decreases |order|
  {
    if order == [] then cur
    else
      var next := if Above(order[0], cur) then order[0] else cur;
      var m := MaxAsWritten(order[1..], next);
      assert forall x :: x in order ==> x == order[0] || x in order[1..];
      m
  }

  /** What `GetFreeIP` does as written: a result, or the fatal error of
      unlocking an unlocked mutex. */
  datatype Attempt = Returned(leasing: Leasing) | Crashed

  /** The map `GetFreeIP`'s search loop visits once the gateway is in. */
  function Iterated(n: Network, s: Sets): set<Addr>
  {
    var g := WithGateway(n, s);
    if g.free != {} then g.free else g.used
  }

  /** `freeIPStorage` as written (ip4_manager.go:124-140). */
  function TakeLeastAsWritten(s: Sets, broadcast: Addr, order: seq<Addr>): (r: (Addr, Sets))
    ensures r.0 == broadcast || r.0 in order
    ensures r.1.used == s.used + {r.0} && r.1.free == s.free - {r.0}
  {
    var m := MinAsWritten(order, broadcast);
    (m, Sets(s.used + {m}, s.free - {m}))
  }

  /** `getIPStorage` as written (ip4_manager.go:143-178). */
  function IssueNextAsWritten(n: Network, s: Sets, broadcast: Addr, order: seq<Addr>): (r: Attempt)
    ensures var next := Succ(MaxAsWritten(order, n.base));
      r.Crashed? <==> !PairEq(next, broadcast) && next !in s.used && !Contains(n, next)
    ensures r.Returned? ==> r.leasing.after.free == s.free
    ensures r.Returned? && r.leasing.grant.Granted? ==>
      r.leasing.grant.addr !in s.used && Contains(n, r.leasing.grant.addr)
      && r.leasing.after.used == s.used + {r.leasing.grant.addr}
    ensures r.Returned? && !r.leasing.grant.Granted? ==> r.leasing.after == s
  {
    var next := Succ(MaxAsWritten(order, n.base));
    if PairEq(next, broadcast) then Returned(Leasing(Refused(NoFreeIPAddress), s))
    else if next in s.used then Returned(Leasing(NoAddress, s))
    else if Contains(n, next) then Returned(Leasing(Granted(next), Sets(s.used + {next}, s.free)))
    else Crashed
  }

  /** `GetFreeIP` as written (ip4_manager.go:39-63), with `order` the order
      in which the search loop visits the keys of `Iterated(n, s)`. */
  function LeaseAsWritten(n: Network, s: Sets, order: seq<Addr>): (r: Attempt)
    ensures r.Crashed? ==> s.free == {}
    ensures r.Returned? && r.leasing.grant.Granted? ==> r.leasing.grant.addr in r.leasing.after.used
  {
    var g := WithGateway(n, s);
    if g.free != {} then
      var (m, t) := TakeLeastAsWritten(g, Broadcast(n), order);
      Returned(Leasing(Granted(m), t))
    else
      IssueNextAsWritten(n, g, Broadcast(n), order)
  }

  /** `SetUsedIP` as written (ip4_manager.go:66-98). */
  function ReserveAsWritten(n: Network, s: Sets, ip: Addr): (r: Updating)
    ensures r.after.free == s.free
    ensures r.outcome.Ok? <==> Contains(n, ip) && !PairEq(ip, Broadcast(Network(ip, n.mask))) && !PairEq(ip, n.base) && ip !in s.used
    ensures r.outcome.Ok? ==> r.after.used == s.used + {ip}
    ensures !r.outcome.Ok? ==> r.after == s
  {
    if PairEq(ip, Broadcast(Network(ip, n.mask))) || PairEq(ip, n.base) then Updating(Failed(IPIsANetworkAddress), s)
    else if !Contains(n, ip) then Updating(Failed(IPAddressIsNotIncludedInNetwork), s)
    else if ip in s.used then Updating(Failed(IPAddressIsUsed), s)
    else Updating(Ok, Sets(s.used + {ip}, s.free))
  }

  // Where the two-octet comparisons are exact

  /** In one aligned block of 256 addresses the two-octet tests are the
      whole-address comparisons. */
  lemma PairOrder(a: Addr, b: Addr)
    requires a / 0x100 == b / 0x100
    ensures Below(a, b) <==> a < b
    ensures Above(a, b) <==> a > b
    ensures PairEq(a, b) <==> a == b
  {
  }

  /** In one aligned block of 65536 addresses, equality of the last two
      octets is equality. */
  lemma PairEqWide(a: Addr, b: Addr)
    requires a / 0x1_0000 == b / 0x1_0000
    ensures PairEq(a, b) <==> a == b
  {
    var t := a / 0x1_0000;
    LowOctets(a, t);
    LowOctets(b, t);
  }

  lemma LowOctets(a: Addr, t: int)
    requires t == a / 0x1_0000
    ensures a == t * 0x1_0000 + Third(a) * 0x100 + Fourth(a)
  {
    var q := a / 0x100;
    assert a == q * 0x100 + a % 0x100;
    DivModUnique(a, 0x1_0000, q / 0x100, (q % 0x100) * 0x100 + a % 0x100);
  }

  /** When the keys and the start share a block of 256, the loop of
      `freeIPStorage` finds the least key, as `Least` does. */
  lemma {:induction false} MinAgrees(order: seq<Addr>, cur: Addr, blk: int)
    requires cur / 0x100 == blk && forall x :: x in order ==> x / 0x100 == blk
    ensures var m := MinAsWritten(order, cur);
      m <= cur && (forall x :: x in order ==> m <= x)
  {
    var m := MinAsWritten(order, cur);
    if m != cur {
      PairOrder(m, cur);
    }
    forall x | x in order
      ensures m <= x
    {
      PairOrder(x, m);
    }
  }

  /** When the keys and the start share a block of 256, the loop of
      `getIPStorage` finds the greatest key, as `Greatest` does. */
  lemma {:induction false} MaxAgrees(order: seq<Addr>, cur: Addr, blk: int)
    requires cur / 0x100 == blk && forall x :: x in order ==> x / 0x100 == blk
    ensures var m := MaxAsWritten(order, cur);
      m >= cur && (forall x :: x in order ==> x <= m)
  {
    var m := MaxAsWritten(order, cur);
    if m != cur {
      PairOrder(m, cur);
    }
    forall x | x in order
      ensures x <= m
    {
      PairOrder(x, m);
    }
  }

  /** Every address from the network number to the broadcast shares the
      network number's block of 256 when p >= 24. */
  lemma InBlock24(n: Network, p: nat, a: Addr)
    requires IsCidr(n, p) && 24 <= p && n.base <= a <= Broadcast(n)
    ensures a / 0x100 == n.base / 0x100
  {
    ContainsRange(n, p, a);
    SameBlock(n, p, a, 8);
    Pow2Of8();
  }

  /** On a /24 or smaller network the pool as written leases what the model
      of pool.dfy leases, whatever the order of the keys. */
  lemma LeaseAgrees(n: Network, p: nat, s: Sets, order: seq<Addr>)
    requires Inv(n, p, s) && 24 <= p <= 30 && Enumerates(order, Iterated(n, s))
    ensures LeaseAsWritten(n, s, order) == Returned(Lease(n, s))
  {
    Layout(n, p);
    var g := WithGateway(n, s);
    var bc := Broadcast(n);
    var blk := n.base / 0x100;
    forall x | x in g.used + g.free
      ensures n.base < x < bc
    {
      if x !in s.used + s.free {
        assert x == n.base + 1;
      }
    }
    if g.free != {} {
      TakeLeastAgrees(n, p, g, order);
    } else {
      IssueNextAgrees(n, p, g, order);
    }
  }

  lemma TakeLeastAgrees(n: Network, p: nat, g: Sets, order: seq<Addr>)
    requires IsCidr(n, p) && 24 <= p && Enumerates(order, g.free)
    requires forall x :: x in g.free ==> n.base < x < Broadcast(n)
    ensures TakeLeastAsWritten(g, Broadcast(n), order) == TakeLeast(g, Broadcast(n))
  {
    var bc := Broadcast(n);
    var blk := n.base / 0x100;
    CidrLayout(n, p);
    InBlock24(n, p, bc);
    forall x | x in g.free
      ensures x / 0x100 == blk
    {
      InBlock24(n, p, x);
    }
    FoldLeast(order, g.free, bc, blk);
  }

  lemma IssueNextAgrees(n: Network, p: nat, g: Sets, order: seq<Addr>)
    requires IsCidr(n, p) && 24 <= p <= 30 && Enumerates(order, g.used)
    requires forall x :: x in g.used ==> n.base < x < Broadcast(n)
    ensures IssueNextAsWritten(n, g, Broadcast(n), order) == Returned(IssueNext(n, g, Broadcast(n)))
  {
    var bc := Broadcast(n);
    var blk := n.base / 0x100;
    Layout(n, p);
    forall x | x in g.used
      ensures x / 0x100 == blk && x < bc
    {
      InBlock24(n, p, x);
    }
    var m := FoldGreatest(order, g.used, n.base, bc, blk);
    NextTests(n, p, m);
  }

  /** The successor of an address below the broadcast is in the network,
      and the two-octet test against the broadcast is exact for it. */
  lemma NextTests(n: Network, p: nat, m: Addr)
    requires IsCidr(n, p) && 24 <= p && n.base <= m < Broadcast(n)
    ensures Contains(n, Succ(m)) && (PairEq(Succ(m), Broadcast(n)) <==> Succ(m) == Broadcast(n))
  {
    var next := Succ(m);
    assert next == m + 1;
    InBlock24(n, p, next);
    InBlock24(n, p, Broadcast(n));
    PairOrder(next, Broadcast(n));
    ContainsRange(n, p, next);
  }

  /** The loop of `freeIPStorage` over keys that share one block of 256
      with its start computes `Least`. */
  lemma FoldLeast(order: seq<Addr>, s: set<Addr>, start: Addr, blk: int)
    requires Enumerates(order, s) && start / 0x100 == blk
    requires forall x :: x in s ==> x / 0x100 == blk
    ensures MinAsWritten(order, start) == Least(s, start)
  {
    var m := MinAsWritten(order, start);
    MinAgrees(order, start, blk);
    LeastUnique(s, start, m);
  }

  /** The loop of `getIPStorage` over keys that share one block of 256 with
      its start computes `Greatest`, which lies below any bound of the keys. */
  lemma FoldGreatest(order: seq<Addr>, s: set<Addr>, start: Addr, hi: int, blk: int) returns (m: Addr)
    requires Enumerates(order, s) && start / 0x100 == blk && start < hi
    requires forall x :: x in s ==> x / 0x100 == blk && x < hi
    ensures m == MaxAsWritten(order, start) && m == Greatest(s, start) && start <= m < hi
  {
    m := MaxAsWritten(order, start);
    MaxAgrees(order, start, blk);
    GreatestUnique(s, start, m);
  }

  /** Within the network, on a /16 or smaller network, `SetUsedIP` as
      written answers as the model of pool.dfy does. */
  lemma ReserveAgrees(n: Network, p: nat, s: Sets, ip: Addr)
    requires IsCidr(n, p) && 16 <= p && Contains(n, ip)
    ensures ReserveAsWritten(n, s, ip) == Reserve(n, s, ip)
  {
    OwnBroadcast(n, p, ip);
    CidrLayout(n, p);
    ContainsRange(n, p, Broadcast(n));
    ContainsRange(n, p, n.base);
    SameBlock(n, p, ip, 16);
    SameBlock(n, p, Broadcast(n), 16);
    Pow2Of32();
    PairEqWide(ip, Broadcast(n));
    PairEqWide(ip, n.base);
  }

  // Where the two-octet comparisons and line 172 differ from the model

  /** A /p network with p <= 16 starts on a multiple of 65536 and its
      broadcast address ends in 255.255. */
  lemma Wide(n: Network, p: nat)
    requires IsCidr(n, p) && p <= 16
    ensures Pow2(32 - p) >= 0x1_0000 && Broadcast(n) == n.base + Pow2(32 - p) - 1
    ensures n.base % 0x1_0000 == 0
    ensures Third(Broadcast(n)) == 0xFF && Fourth(Broadcast(n)) == 0xFF
  {
    var h := 32 - p;
    var q := CleanNumber(n, p);
    CidrLayout(n, p);
    assert Pow2(16) == 0x1_0000 by { Pow2Of32(); }
    Pow2Add(h - 16, 16);
    assert h - 16 + 16 == h;
    Pow2Monotone(16, h);
    WideArith(n.base, q, Pow2(h - 16));
    OctetsAbove(Broadcast(n) - 0xFFFF, 0xFFFF);
  }

  /** The arithmetic of `Wide`: a multiple of c * 65536 and that multiple
      plus (c - 1) * 65536 are both multiples of 65536. */
  lemma WideArith(base: int, q: nat, c: nat)
    requires c >= 1 && base == q * (c * 0x1_0000)
    ensures base % 0x1_0000 == 0 && (base + c * 0x1_0000 - 0x1_0000) % 0x1_0000 == 0
  {
    assert base == 0x1_0000 * (q * c);
    DivModUnique(base, 0x1_0000, q * c, 0);
    assert base + c * 0x1_0000 - 0x1_0000 == 0x1_0000 * (q * c + c - 1);
    DivModUnique(base + c * 0x1_0000 - 0x1_0000, 0x1_0000, q * c + c - 1, 0);
  }

  /** The third and last octets of base + k, for base a multiple of 65536
      and k < 65536. */
  lemma OctetsAbove(base: Addr, k: int)
    requires base % 0x1_0000 == 0 && 0 <= k < 0x1_0000 && base + k < AddrSpace
    ensures Third(base + k) == k / 0x100 && Fourth(base + k) == k % 0x100
  {
    var t := base / 0x1_0000;
    assert base == t * 0x1_0000;
    DivModUnique(base + k, 0x100, t * 0x100 + k / 0x100, k % 0x100);
    DivModUnique(t * 0x100 + k / 0x100, 0x100, t, k / 0x100);
  }

  /** ip4_manager.go:129. On a /16 or larger network, x = base + 255 (for
      10.0.0.0/16, 10.0.0.255) is reserved, released and leased again. No
      key has a last octet below the broadcast's 255, so the search keeps its
      start and `GetFreeIP` hands out the broadcast address; the model hands
      out x. */
  lemma LeastAsWrittenLeasesBroadcast(n: Network, p: nat)
    requires IsCidr(n, p) && p <= 16
    ensures n.base + 0xFF < Broadcast(n)
    ensures var x := n.base + 0xFF;
      ReserveAsWritten(n, Sets({}, {}), x) == Updating(Ok, Sets({x}, {}))
      && Release(Sets({x}, {}), x) == Updating(Ok, Sets({}, {x}))
      && LeaseAsWritten(n, Sets({}, {x}), [x])
         == Returned(Leasing(Granted(Broadcast(n)), Sets({n.base + 1, Broadcast(n)}, {x})))
      && Lease(n, Sets({}, {x})) == Leasing(Granted(x), Sets({n.base + 1, x}, {}))
  {
    Wide(n, p);
    var bc := Broadcast(n);
    var x := n.base + 0xFF;
    OctetsAbove(n.base, 0);
    OctetsAbove(n.base, 0xFF);
    ContainsRange(n, p, x);
    OwnBroadcast(n, p, x);
    assert ReserveAsWritten(n, Sets({}, {}), x) == Updating(Ok, Sets({} + {x}, {}));
    assert Release(Sets({x}, {}), x) == Updating(Ok, Sets({x} - {x}, {} + {x}));
    var g := Sets({n.base + 1}, {x});
    assert WithGateway(n, Sets({}, {x})) == g;
    assert MinAsWritten([x], bc) == bc by {
      assert [x][1..] == [];
    }
    assert {x} - {bc} == {x};
    LeastUnique({x}, bc, x);
    assert {x} - {x} == {};
  }

  /** Nothing later in `order` replaces `top`, a key ending in 255, once the
      loop of `getIPStorage` reaches it, when every other key is below it in
      both octets or ends in 0. */
  lemma {:induction false} MaxStays(order: seq<Addr>, cur: Addr, top: Addr)
    requires Fourth(top) == 0xFF
    requires cur == top || (Above(top, cur) && top in order)
    requires forall x :: x in order ==> x == top || Above(top, x) || Fourth(x) == 0
    ensures MaxAsWritten(order, cur) == top
    decreases |order|
  {
    if order != [] {
      var y := order[0];
      var next := if Above(y, cur) then y else cur;
      assert forall x :: x in order[1..] ==> x in order;
      if cur != top && y != top {
        assert top in order[1..];
      }
      MaxStays(order[1..], next, top);
    }
  }

  /** ip4_manager.go:149. On a /16 or larger network after 255 leases (base+1,
      the gateway, up to base+256 are used; for 10.0.0.0/16, 10.0.0.1 up to
      10.0.1.0), the search stops at base+255 in every order, since the key
      base+256 ends in 0 and never replaces it; its successor base+256 is
      used, so `GetFreeIP` returns no address and no error, and the state
      does not change. The model leases base+257. */
  lemma GreatestAsWrittenStalls(n: Network, p: nat, order: seq<Addr>)
    requires IsCidr(n, p) && p <= 16 && n.base + 0x100 < AddrSpace
    requires Enumerates(order, Interval(n.base + 1, n.base + 0x100))
    ensures n.base + 0x101 < Broadcast(n)
    ensures var s := Sets(Interval(n.base + 1, n.base + 0x100), {});
      Leases(n, Sets({}, {}), 255).1 == s
      && LeaseAsWritten(n, s, order) == Returned(Leasing(NoAddress, s))
      && Lease(n, s).grant == Granted(n.base + 0x101)
  {
    Wide(n, p);
    var b := n.base;
    var s := Sets(Interval(b + 1, b + 0x100), {});
    assert Leases(n, Sets({}, {}), 255).1 == s by {
      SequentialLeases(n, p, 255);
    }
    StallPoint(b, order);
    StallNext(b, Broadcast(n));
    assert WithGateway(n, s) == s by {
      InInterval(b + 1, b + 0x100, b + 1);
    }
    assert Lease(n, s).grant == Granted(b + 0x101) by {
      LeaseExtendsRun(n, p, b + 0x100);
    }
  }

  /** The search of `getIPStorage` over the keys base+1 .. base+256, with base
      a multiple of 65536, ends at base+255 whatever the order. */
  lemma StallPoint(b: Addr, order: seq<Addr>)
    requires b % 0x1_0000 == 0 && b + 0x100 < AddrSpace
    requires Enumerates(order, Interval(b + 1, b + 0x100))
    ensures MaxAsWritten(order, b) == b + 0xFF
  {
    var top := b + 0xFF;
    InInterval(b + 1, b + 0x100, top);
    OctetsAbove(b, 0);
    OctetsAbove(b, 0xFF);
    forall x | x in order
      ensures x == top || Above(top, x) || Fourth(x) == 0
    {
      InInterval(b + 1, b + 0x100, x);
      OctetsAbove(b, x - b);
    }
    MaxStays(order, b, top);
  }

  /** The successor of base+255 is base+256, which ends in 0 and so is not
      taken for a broadcast address ending in 255.255. */
  lemma StallNext(b: Addr, bc: Addr)
    requires b % 0x1_0000 == 0 && b + 0x100 < AddrSpace
    requires Third(bc) == 0xFF && Fourth(bc) == 0xFF
    ensures Succ(b + 0xFF) == b + 0x100 && b + 0x100 in Interval(b + 1, b + 0x100)
    ensures !PairEq(b + 0x100, bc)
  {
    OctetsAbove(b, 0x100);
    InInterval(b + 1, b + 0x100, b + 0x100);
  }

  /** The 255 leases before the stall go as in the model: on a /16 or
      larger network, after the run base+1 .. m with m below base+256, the
      pool as written grants m+1 in every key order, as the model does. */
  lemma RunAsWrittenAgrees(n: Network, p: nat, m: int, order: seq<Addr>)
    requires IsCidr(n, p) && p <= 16 && n.base + 1 <= m <= n.base + 0xFF && n.base + 0x100 < AddrSpace
    requires Enumerates(order, Interval(n.base + 1, m))
    ensures var s := Sets(Interval(n.base + 1, m), {});
      LeaseAsWritten(n, s, order) == Returned(Lease(n, s))
      && Lease(n, s) == Leasing(Granted(m + 1), Sets(Interval(n.base + 1, m + 1), {}))
  {
    Wide(n, p);
    var b := n.base;
    var run := Interval(b + 1, m);
    var s := Sets(run, {});
    assert WithGateway(n, s) == s by {
      InInterval(b + 1, m, b + 1);
    }
    var top := RunMaxAsWritten(b, m, order);
    RunNextTests(n, p, m);
    RunTop(b, m);
    assert Interval(b + 1, m + 1) == run + {m + 1};
    assert IssueNextAsWritten(n, s, Broadcast(n), order)
           == Returned(Leasing(Granted(m + 1), Sets(run + {m + 1}, {})));
    LeaseExtendsRun(n, p, m);
  }

  /** The search of `getIPStorage` over base+1 .. m, all in the block of 256
      that starts at base, ends at m whatever the order. */
  lemma RunMaxAsWritten(b: Addr, m: int, order: seq<Addr>) returns (top: Addr)
    requires b % 0x1_0000 == 0 && b + 1 <= m <= b + 0xFF && m < AddrSpace
    requires Enumerates(order, Interval(b + 1, m))
    ensures top == m && MaxAsWritten(order, b) == m
  {
    var run := Interval(b + 1, m);
    var blk := b / 0x100;
    LowBlock(b, 0);
    forall x | x in run
      ensures x / 0x100 == blk && x < m + 1
    {
      InInterval(b + 1, m, x);
      LowBlock(b, x - b);
    }
    top := FoldGreatest(order, run, b, m + 1, blk);
    RunTop(b, m);
  }

  /** The successor of m, for m below base+256, is a fresh address of the
      network that the two-octet test does not take for the broadcast. */
  lemma RunNextTests(n: Network, p: nat, m: int)
    requires IsCidr(n, p) && p <= 16 && n.base + 1 <= m <= n.base + 0xFF && n.base + 0x100 < AddrSpace
    ensures Succ(m) == m + 1 && Contains(n, m + 1) && !PairEq(m + 1, Broadcast(n))
  {
    Wide(n, p);
    OctetsAbove(n.base, m + 1 - n.base);
    ContainsRange(n, p, m + 1);
  }

  /** base + k, for k < 256, lies in the block of 256 that starts at base. */
  lemma LowBlock(b: Addr, k: int)
    requires b % 0x1_0000 == 0 && 0 <= k < 0x100 && b + k < AddrSpace
    ensures (b + k) / 0x100 == b / 0x100
  {
    var t := b / 0x1_0000;
    assert b == t * 0x1_0000;
    DivModUnique(b + k, 0x100, t * 0x100, k);
    DivModUnique(b, 0x100, t * 0x100, 0);
  }

  /** The first lease as written, on a fresh pool, is the lease after the
      run base+1 .. base+1: it grants base+2 as the model does. */
  lemma FirstAsWrittenAgrees(n: Network, p: nat, order: seq<Addr>)
    requires IsCidr(n, p) && p <= 16 && n.base + 0x100 < AddrSpace
    requires Enumerates(order, Iterated(n, Sets({}, {})))
    ensures LeaseAsWritten(n, Sets({}, {}), order) == Returned(Lease(n, Sets({}, {})))
    ensures Lease(n, Sets({}, {})) == Leasing(Granted(n.base + 2), Sets(Interval(n.base + 1, n.base + 2), {}))
  {
    Wide(n, p);
    var b := n.base;
    var g := Sets(Interval(b + 1, b + 1), {});
    assert Interval(b + 1, b + 1) == {Succ(b)};
    assert WithGateway(n, Sets({}, {})) == g;
    assert WithGateway(n, g) == g;
    assert Iterated(n, Sets({}, {})) == Interval(b + 1, b + 1);
    RunAsWrittenAgrees(n, p, b + 1, order);
    assert LeaseAsWritten(n, Sets({}, {}), order) == LeaseAsWritten(n, g, order);
    assert Lease(n, Sets({}, {})) == Lease(n, g);
  }

  /** A network larger than /16 holds at least two blocks of 65536. */
  lemma Wider(n: Network, p: nat)
    requires IsCidr(n, p) && p <= 15
    ensures n.base % 0x1_0000 == 0 && n.base + 0x2_0000 <= Broadcast(n) + 1
    ensures Third(Broadcast(n)) == 0xFF && Fourth(Broadcast(n)) == 0xFF
  {
    Wide(n, p);
    Pow2Monotone(17, 32 - p);
    assert Pow2(17) == 0x2_0000 by { Pow2Of32(); }
  }

  /** ip4_manager.go:78. On a network larger than /16, the host base+65536
      (for 10.0.0.0/8, 10.1.0.0) ends in the same two octets as the network
      number, so `SetUsedIP` refuses it as a network address; the model
      accepts it. */
  lemma ReserveAsWrittenRefusesHost(n: Network, p: nat)
    requires IsCidr(n, p) && p <= 15
    ensures n.base + 0x1_0000 < Broadcast(n)
    ensures var ip := n.base + 0x1_0000;
      ReserveAsWritten(n, Sets({}, {}), ip).outcome == Failed(IPIsANetworkAddress)
      && Reserve(n, Sets({}, {}), ip).outcome == Ok
  {
    Wider(n, p);
    var ip := n.base + 0x1_0000;
    assert PairEq(ip, n.base) by {
      OctetsAbove(n.base, 0);
      assert ip % 0x1_0000 == 0;
      OctetsAbove(ip, 0);
    }
    assert Reserve(n, Sets({}, {}), ip).outcome == Ok by {
      HostRange(n, p, ip);
      ReserveOutcome(n, p, Sets({}, {}), ip);
    }
  }

  /** ip4_manager.go:78. On a /16 network, an address outside it that ends in
      .0.0, as 192.168.0.0 does for 172.16.0.0/16, matches the last two
      octets of the network number, so `SetUsedIP` reports a network
      address; the model reports that it is not in the network. */
  lemma ReserveAsWrittenMisreportsOutsider(n: Network, ip: Addr)
    requires IsCidr(n, 16) && !Contains(n, ip) && ip % 0x1_0000 == 0
    ensures ReserveAsWritten(n, Sets({}, {}), ip).outcome == Failed(IPIsANetworkAddress)
    ensures Reserve(n, Sets({}, {}), ip).outcome == Failed(IPAddressIsNotIncludedInNetwork)
  {
    Wide(n, 16);
    Slash16HostBits(n);
    EndsInZeros(ip, n.base);
    ReserveOutcome(n, 16, Sets({}, {}), ip);
  }

  /** ip4_manager.go:73-78. An address outside the network whose own host
      bits are all set, as 192.168.255.255 is for 172.16.0.0/16, is its own
      `ip | ^mask`, so `SetUsedIP` reports a network address before it tests
      containment; the model reports that it is not in the network. */
  lemma ReserveAsWrittenMisreportsOwnBroadcast(n: Network, p: nat, ip: Addr)
    requires IsCidr(n, p) && !Contains(n, ip) && ip == Or(ip, Not32(n.mask))
    ensures ReserveAsWritten(n, Sets({}, {}), ip).outcome == Failed(IPIsANetworkAddress)
    ensures Reserve(n, Sets({}, {}), ip).outcome == Failed(IPAddressIsNotIncludedInNetwork)
  {
    ReserveOutcome(n, p, Sets({}, {}), ip);
  }

  /** The host bits of a /16 network are the low 16. */
  lemma Slash16HostBits(n: Network)
    requires IsCidr(n, 16)
    ensures Not32(n.mask) == 0xFFFF
  {
    Pow2Of32();
    assert n.mask + 0x1_0000 == AddrSpace;
  }

  /** Two multiples of 65536 agree in the last two octets, and setting the
      low 16 bits changes either. */
  lemma EndsInZeros(a: Addr, b: Addr)
    requires a % 0x1_0000 == 0 && b % 0x1_0000 == 0
    ensures PairEq(a, b) && a != Or(a, 0xFFFF)
  {
    OctetsAbove(a, 0);
    OctetsAbove(b, 0);
    assert Pow2(16) == 0x1_0000 by { Pow2Of32(); }
    assert a == (a / 0x1_0000) * 0x1_0000 + 0;
    OrLowOnes(a / 0x1_0000, 0, 16);
  }

  /** ip4_manager.go:159. On a network larger than /16, with base+65534
      reserved on a fresh pool (for 10.0.0.0/8, 10.0.255.254), the next
      address base+65535 ends like the broadcast in 255.255, so `GetFreeIP`
      reports no free address; the model leases base+65535. */
  lemma NoFreeAsWrittenTooEarly(n: Network, p: nat)
    requires IsCidr(n, p) && p <= 15
    ensures n.base + 0xFFFF < Broadcast(n)
    ensures var x := n.base + 0xFFFE;
      ReserveAsWritten(n, Sets({}, {}), x) == Updating(Ok, Sets({x}, {}))
      && LeaseAsWritten(n, Sets({x}, {}), [x]) == Returned(Leasing(Refused(NoFreeIPAddress), Sets({x}, {})))
      && Lease(n, Sets({x}, {})) == Leasing(Granted(n.base + 0xFFFF), Sets({x, n.base + 0xFFFF}, {}))
  {
    Wider(n, p);
    TooEarlyReserve(n, p);
    TooEarlyAsWritten(n, p);
    TooEarlyLease(n, p);
  }

  /** As written, base+65534 is accepted on a fresh pool. */
  lemma TooEarlyReserve(n: Network, p: nat)
    requires IsCidr(n, p) && p <= 15
    ensures n.base + 0xFFFF < Broadcast(n)
    ensures ReserveAsWritten(n, Sets({}, {}), n.base + 0xFFFE) == Updating(Ok, Sets({n.base + 0xFFFE}, {}))
  {
    Wider(n, p);
    var b := n.base;
    var x := b + 0xFFFE;
    TooEarlyOctets(b);
    assert Contains(n, x) by { ContainsRange(n, p, x); }
    assert Broadcast(Network(x, n.mask)) == Broadcast(n) by { OwnBroadcast(n, p, x); }
    assert {} + {x} == {x};
  }

  /** As written, the lease after it stops at base+65535 as if at the
      broadcast address. */
  lemma TooEarlyAsWritten(n: Network, p: nat)
    requires IsCidr(n, p) && p <= 15
    ensures n.base + 0xFFFF < Broadcast(n)
    ensures var x := n.base + 0xFFFE;
      LeaseAsWritten(n, Sets({x}, {}), [x]) == Returned(Leasing(Refused(NoFreeIPAddress), Sets({x}, {})))
  {
    Wider(n, p);
    var b := n.base;
    var x := b + 0xFFFE;
    var g := Sets({x}, {});
    assert WithGateway(n, g) == g;
    TooEarlyOctets(b);
    assert PairEq(Succ(x), Broadcast(n));
    MaxOfOne(x, b);
  }

  /** For base a multiple of 65536, base+65534 is above base in both of
      the last octets, and its successor base+65535 ends in 255.255. */
  lemma TooEarlyOctets(b: Addr)
    requires b % 0x1_0000 == 0 && b + 0xFFFF < AddrSpace
    ensures Above(b + 0xFFFE, b) && Succ(b + 0xFFFE) == b + 0xFFFF
    ensures Third(b + 0xFFFF) == 0xFF && Fourth(b + 0xFFFF) == 0xFF
  {
    OctetsAbove(b, 0);
    OctetsAbove(b, 0xFFFE);
    OctetsAbove(b, 0xFFFF);
  }

  /** The model leases base+65535 instead. */
  lemma TooEarlyLease(n: Network, p: nat)
    requires IsCidr(n, p) && p <= 15
    ensures n.base + 0xFFFF < Broadcast(n)
    ensures var x, y := n.base + 0xFFFE, n.base + 0xFFFF;
      Lease(n, Sets({x}, {})) == Leasing(Granted(y), Sets({x, y}, {}))
  {
    Wider(n, p);
    var b := n.base;
    var x := b + 0xFFFE;
    var y := b + 0xFFFF;
    var g := Sets({x}, {});
    assert WithGateway(n, g) == g;
    GreatestUnique({x}, b, x);
    assert Succ(x) == y;
    assert Contains(n, y) by { ContainsRange(n, p, y); }
    assert IssueNext(n, g, Broadcast(n)) == Leasing(Granted(y), Sets({x} + {y}, {}));
    assert {x} + {y} == {x, y};
  }

  /** The search of `getIPStorage` over one key that is above its start
      ends at that key. */
  lemma MaxOfOne(k: Addr, cur: Addr)
    requires Above(k, cur)
    ensures MaxAsWritten([k], cur) == k
  {
    assert [k][1..] == [];
  }

  /** The search of `freeIPStorage` over one key that is not below its
      start keeps the start. */
  lemma MinOfOne(k: Addr, cur: Addr)
    requires !Below(k, cur)
    ensures MinAsWritten([k], cur) == cur
  {
    assert [k][1..] == [];
  }

  /** ip4_manager.go:172. On a /31 network (10.0.0.0/31, say) the gateway,
      base+1, is the broadcast address; the first lease computes base+2,
      which is outside the network, and unlocks the unlocked mutex. The model
      returns the error of ip4_manager.go:173 instead. */
  lemma LeaseAsWrittenCrashes(n: Network)
    requires IsCidr(n, 31) && n.base + 2 < AddrSpace
    ensures LeaseAsWritten(n, Sets({}, {}), [n.base + 1]) == Crashed
    ensures Lease(n, Sets({}, {})) == Leasing(Refused(IPAddressIsNotIncludedInNetwork), Sets({n.base + 1}, {}))
  {
    CrashAsWritten(n);
    CrashInModel(n);
  }

  /** The layout of a /31 network: an even network number followed by the
      broadcast address, and nothing of it above. */
  lemma Slash31(n: Network)
    requires IsCidr(n, 31) && n.base + 2 < AddrSpace
    ensures n.base % 2 == 0 && Broadcast(n) == n.base + 1 && !Contains(n, n.base + 2)
  {
    CidrLayout(n, 31);
    assert Pow2(1) == 2;
    ContainsRange(n, 31, n.base + 2);
  }

  lemma CrashAsWritten(n: Network)
    requires IsCidr(n, 31) && n.base + 2 < AddrSpace
    ensures LeaseAsWritten(n, Sets({}, {}), [n.base + 1]) == Crashed
  {
    var b := n.base;
    var g := Sets({b + 1}, {});
    Slash31(n);
    CrashPoint(b);
    assert WithGateway(n, Sets({}, {})) == g;
    MaxOfOne(b + 1, b);
    assert IssueNextAsWritten(n, g, b + 1, [b + 1]) == Crashed;
  }

  lemma CrashInModel(n: Network)
    requires IsCidr(n, 31) && n.base + 2 < AddrSpace
    ensures Lease(n, Sets({}, {})) == Leasing(Refused(IPAddressIsNotIncludedInNetwork), Sets({n.base + 1}, {}))
  {
    var b := n.base;
    var g := Sets({b + 1}, {});
    Slash31(n);
    assert WithGateway(n, Sets({}, {})) == g;
    GreatestUnique({b + 1}, b, b + 1);
    assert Succ(b + 1) == b + 2;
    assert IssueNext(n, g, b + 1) == Leasing(Refused(IPAddressIsNotIncludedInNetwork), g);
  }

  /** For an even b, the search from b over the key b+1 moves to b+1, and
      the successor b+2 differs from it in the last octet. */
  lemma CrashPoint(b: Addr)
    requires b % 2 == 0 && b + 2 < AddrSpace
    ensures Above(b + 1, b) && !PairEq(b + 2, b + 1) && Succ(b + 1) == b + 2
  {
    assert (b + 1) / 0x100 == b / 0x100;
    PairOrder(b + 1, b);
  }
}
