# ip4manager in Dafny

A model of the IPv4 address pool of the Go repository `ip4manager`, with
proofs about it.

- **The pool.** It is `IP4Manager` in ip4_manager.go and `NetworkControl` in
  network.go; the two files are the same code line for line.
  - It holds a network and two sets: the leased addresses (`UsedIPStorage`)
    and the released addresses (`FreeIPStorage`).
  - `GetFreeIP` leases an address. On the first call it reserves the gateway
    (network number + 1). It then hands out the least released address, or
    one past the greatest leased one.
  - `SetUsedIP` reserves an address the caller chooses. `ReleaseIP` moves a
    leased address to the released set.
  - `nextIP` computes the successor of an address.
- **Network validation** (network/network.go). `checkMask` looks the mask
  up in a table. `checkIPAddress` refuses an address that is its own
  broadcast address. `NewNetwork` runs both checks.
- **Network arithmetic** (pkg/network/network.go). `verifiedNetworkData` and
  `NewNetwork` classify the mask text. `AddressCount` and `AddressRange`
  work with `math/big`. `ipToInt` and `intToIP` convert between byte slices
  and integers.

Layout:

| file | contents |
|---|---|
| bits.dfy (`Bits`) | OR and AND on natural numbers, with their algebra |
| ipv4.dfy (`IPv4`) | addresses as numbers below 2^32, octets, `nextIP`, networks and broadcast addresses |
| pool.dfy (`Pool`) | the pool as a class; methods specified by functions from the old sets to the result and the new sets |
| pool_properties.dfy (`PoolProperties`) | what the pool guarantees: invariant, leases, runs, exhaustion |
| pool_session.dfy (`PoolSession`) | the session of the repository's test, proved for every /p network with p <= 28 and for 172.16.0.0/16 |
| pool_as_written.dfy (`PoolAsWritten`) | the pool as the code really compares addresses, last two octets only; where that agrees and where it does not |
| mask_check.dfy (`MaskCheck`) | network/network.go |
| network_range.dfy (`NetworkRange`) | pkg/network/network.go |

How the code is modelled:

- **Addresses.** An address is the number the four octets spell in
  network order (`Addr`, below 2^32).
- **Key order.** Go visits the keys of a map in an unspecified order.
  - The methods of `Pool.AddressPool` pick keys with `:|`.
  - The as-written functions take the visiting order as a sequence parameter.
- **Comparisons.** The pool is meant to compare whole 32-bit addresses,
  and the pool of pool.dfy does. Lines 78, 129, 149 and 159 of both pool
  files compare only the last two octets.
  pool_as_written.dfy models those lines as written. It proves that on a /24
  to /30 network, in a state where the two sets are disjoint host
  addresses, the leases agree with the model whatever the key order
  (`LeaseAgrees`); on a /31 network they differ (line 172 below). It also
  proves that for an address inside a /16 to /32 network, reserving agrees
  with the model (`ReserveAgrees`). The
  differences are listed under Findings.
- **Network addresses.** Line 78 compares the argument with its own
  `ip | ^mask`, before line 82 tests containment. For an address inside
  the network that is the broadcast address (`OwnBroadcast`). The model's
  `Reserve` compares with the network number and the broadcast address
  themselves, so every outside address is reported as not in the network;
  the code's answer for an outside address whose host bits are all set is
  under Findings.
- **Line 172.** The code calls `mx.Unlock()` on a mutex that is not locked,
  which is a fatal error in Go. The main model returns the error of line 173
  instead. The as-written model has a `Crashed` outcome.
- **Sets may overlap.** `SetUsedIP` never looks at the released set. So used
  and released are disjoint only while nothing released is reserved again.
  `ReservePreservesInv` carries that precondition, and
  `ReserveReleasedLeasesTwice` shows what happens without it. An address
  is meant to be in at most one of the two sets; the model follows the
  code, where it can be in both.
- **Releasing the gateway.** The gateway is meant never to be leased. In
  the code it can be, once it has been released: the lease takes it from
  the released set. `GatewayReserved` requires the gateway not to have been
  released.
- **pkg/network/network.go line 38.** The test `mask <= 0 && mask >= 32`
  never holds. So a mask text of one or two bytes is refused only when it
  is not a number, and that branch returns no address and no mask
  (`PrefixTextDropped`). The model keeps the test as written.
- **Text lengths.** Go's `len` of a string counts UTF-8 bytes. The model
  measures the mask text with `ByteLength`, so a six-character text with
  one accented letter takes the seven-to-fifteen-byte branch
  (`LengthInBytes`).

## Model

| member | source | states |
|---|---|---|
| Pool.AddressPool.constructor | ip4_manager.go:28-36 | a new pool holds the /p network of the text's address, with its host bits cleared, and two empty sets |
| Pool.AddressPool.GetFreeIP | ip4_manager.go:39-63 | the grant and the new sets are those `Lease` gives for the old sets; the broadcast address is computed octet by octet |
| Pool.AddressPool.TakeLeastFree | ip4_manager.go:124-140 | the minimum loop returns `Least` of the released set, starting from the broadcast address, and moves that address to the used set |
| Pool.AddressPool.IssueNextFree | ip4_manager.go:143-178 | the maximum loop starts from the network number; the result and new sets are those of `IssueNext` |
| Pool.AddressPool.SetUsedIP | ip4_manager.go:66-98 | the outcome and new sets are those of `Reserve` |
| Pool.AddressPool.ReleaseIP | ip4_manager.go:101-121 | the linear search finds the address if and only if it is used; outcome and sets are those of `Release` |
| Pool.Least | ip4_manager.go:126-132 | the loop's result is at most its start, is the start or a key, and is at most every key |
| Pool.Greatest | ip4_manager.go:145-152 | the loop's result is at least its start, is the start or a key, and is at least every key |
| Pool.TakeLeast | ip4_manager.go:124-140 | the address taken is below every released address, and it moves from the released set to the used set |
| Pool.IssueNext | ip4_manager.go:143-178 | a grant is a fresh address inside the network and is added to the used set; any other result leaves both sets alone; the released set never changes |
| Pool.Lease | ip4_manager.go:39-63 | used only grows and released only shrinks; the gateway is in use after the first lease; what is granted is used and not released; with released addresses present the lease always grants |
| Pool.Reserve | ip4_manager.go:66-98 | success if and only if the address is in the network, is neither the network number nor the broadcast address, and is not used; `ErrIPIsANetworkAddress` exactly for those two addresses; success adds exactly the address to the used set; failure changes nothing |
| Pool.Release | ip4_manager.go:101-121 | success if and only if the address is used, and then it moves to the released set; `ErrStorageIsEmpty` exactly when nothing is used; `ErrIPIsNotFound` for an unused address when something is used; failure changes nothing |
| PoolProperties.LeasePreservesInv | ip4_manager.go:50-61 | on a /p network with p <= 30, in a state satisfying `Inv` (the two sets disjoint and inside the host range), a lease keeps `Inv`, and what it grants is a host address |
| PoolProperties.TakeLeastPreservesInv | ip4_manager.go:124-140 | on a /p network with p <= 30, in a state satisfying `Inv` with released addresses present, taking the least released address keeps `Inv`, and that address lies strictly between the network number and the broadcast address |
| PoolProperties.IssuePreservesInv | ip4_manager.go:143-178 | on a /p network with p <= 30, in a state satisfying `Inv` with nothing released, issuing the next address keeps `Inv`, and a granted address is a host address |
| PoolProperties.LeaseIsFresh | network.go:124-170 | in a state satisfying `Inv`, a lease never grants an address that was already used |
| PoolProperties.GatewayReserved | ip4_manager.go:50-55 | in a state satisfying `Inv` with nothing used and a gateway that has not been released, the gateway is used after a lease and is not the address granted |
| PoolProperties.LeaseTakesLeastFree | ip4_manager.go:57-59 | in a state satisfying `Inv` with released addresses present, the grant is the least of them; it moves to the used set and nothing else changes but the gateway |
| PoolProperties.LeaseIssuesNext | ip4_manager.go:155-177 | on a /p network with p <= 30, in a state satisfying `Inv` with nothing released, the lease grants if and only if the last host address is free; otherwise `ErrNoFreeIPAddress`; a grant is the greatest used address plus one, a fresh host address, and is added to the used set; a refusal changes nothing |
| PoolProperties.LeaseExtendsRun | network.go:143-170 | on a /p network with p <= 30, after the run base+1 .. m is used, a lease grants m+1 and extends the run, or reports no free address once m+1 is the broadcast address |
| PoolProperties.RunFrom | network.go:143-170 | on a /p network with p <= 30, k leases after the run base+1 .. m, with m+k below the broadcast address, grant m+1 .. m+k in order and leave the run base+1 .. m+k |
| PoolProperties.FirstLease | ip4_manager.go:50-61 | on a /p network with p <= 30, the first lease of a fresh pool reserves base+1 and grants base+2 |
| PoolProperties.SequentialLeases | network.go:143-170 | on a /p network with p <= 30, from a fresh pool the first k leases, for 1 <= k <= 2^(32-p) - 3, grant base+2 .. base+k+1 in order, never the network number, gateway or broadcast address, and leave base+1 .. base+k+1 used |
| PoolProperties.PoolExhaustion | ip4_manager.go:155-161 | on a /p network with p <= 30, after the pool hands out its 2^(32-p) - 3 addresses, the next lease reports no free address and changes nothing |
| PoolProperties.ReleasePreservesInv | ip4_manager.go:113-114 | in a state satisfying `Inv`, a release keeps the sets disjoint and inside the host range |
| PoolProperties.ReservePreservesInv | ip4_manager.go:86-95 | in a state satisfying `Inv`, a reservation keeps `Inv` when the address is not a released one |
| PoolProperties.ReserveOutcome | ip4_manager.go:78-95 | the network number and the broadcast address are refused as network addresses; a host address is accepted unless it is used; every outside address is refused as not in the network; success exactly for an unused host address |
| PoolProperties.ReleaseThenLease | network.go:101-140 | on a /p network with p <= 30, in a state satisfying `Inv` with nothing released and a lease that grants A: release A, lease again, and the second lease grants A |
| PoolProperties.ReserveReleasedLeasesTwice | ip4_manager.go:86-95 | on a /p network with p <= 30, reserving a released address succeeds and leaves it in both sets, and the next lease grants it though it is used |
| PoolSession.LeasePhase | IP4Manager_test.go:51-67 | on any /p network with p <= 28, the first three leases grant base+2, base+3 and base+4 |
| PoolSession.ReservePhase | IP4Manager_test.go:69-93 | the five reservations of the test give, in order: success, network address twice, used, and not in the network |
| PoolSession.ReleasePhase | IP4Manager_test.go:95-111 | releasing base+2 and base+3 succeeds, and releasing the outside address reports not found |
| PoolSession.LeaseAgainPhase | network_test.go:113-133 | the next four leases grant base+2 and base+3 again, then base+6 and base+7 |
| PoolSession.ReservationChain | IP4Manager_test.go:22-27 | when the first reservation takes the sets to s2 and every later one leaves s2 as it is, the sequence yields exactly those outcomes and ends in s2 |
| PoolSession.SessionTrace | IP4Manager_test.go:9-46 | the whole session of the test on any /p network with p <= 28, for any outside address, gives the results the test expects |
| PoolSession.TestNetworkFacts | IP4Manager_test.go:49 | 172.16.0.0/16 runs up to 172.16.255.255 and does not contain 192.168.0.6 |
| PoolSession.ReferenceTrace | IP4Manager_test.go:48-133 | the test's own session on 172.16.0.0/16 gives the addresses and errors the test expects |
| IPv4.Octets | ip4_manager.go:41 | the four octets of an address pack back to it |
| IPv4.NextIP | ip4_manager.go:181-190 | the packed result is the packed input plus the increment, modulo 2^32 |
| IPv4.NextIPValue | network.go:183-188 | the four octets taken from a 64-bit sum are the sum modulo 2^32 |
| IPv4.SuccIsNextIP | ip4_manager.go:181-190 | `nextIP(ip, 1)` gives the octets of the successor modulo 2^32 |
| IPv4.NextIPWraps | network.go:181-190 | 255.255.255.255 has the successor 0.0.0.0 |
| IPv4.ComputeBroadcast | ip4_manager.go:41-48 | the octet-by-octet loop computes the address OR the inverted mask |
| IPv4.OctetwiseOr | network.go:45-47 | the OR of each octet pair, packed, is the OR of the packed words |
| IPv4.NotOctets | ip4_manager.go:46 | inverting each octet inverts the packed word |
| IPv4.CidrNetworkIsCidr | ip4_manager.go:29 | the network `ParseCIDR` builds is the address rounded down to a multiple of 2^(32-p), with no host bits set |
| IPv4.CidrLayout | ip4_manager.go:43-48 | a /p network starts on a multiple of 2^(32-p) and its broadcast address is 2^(32-p) - 1 above that |
| IPv4.ContainsRange | ip4_manager.go:82 | `Contains` accepts exactly the addresses from the network number to the broadcast address |
| IPv4.HostRange | ip4_manager.go:78-84 | the host addresses are exactly those strictly between the network number and the broadcast address |
| IPv4.OwnBroadcast | ip4_manager.go:73-78 | `ip OR NOT mask` is the network's broadcast address for every address inside the network |
| PoolAsWritten.MinAsWritten | ip4_manager.go:126-132 | the two-octet minimum loop returns its start or a key |
| PoolAsWritten.MaxAsWritten | ip4_manager.go:145-152 | the two-octet maximum loop returns its start or a key |
| PoolAsWritten.TakeLeastAsWritten | ip4_manager.go:124-140 | the address taken is the broadcast address or a released key, and it moves to the used set |
| PoolAsWritten.IssueNextAsWritten | ip4_manager.go:143-178 | a grant is fresh, inside the network and added to the used set; other returns change nothing; it crashes exactly when the next address differs from the broadcast address in its last two octets, is not used and lies outside the network |
| PoolAsWritten.LeaseAsWritten | ip4_manager.go:39-63 | a crash happens only when nothing is released; a grant is used afterwards |
| PoolAsWritten.ReserveAsWritten | ip4_manager.go:66-98 | success if and only if the address is in the network, differs from the network number and its own broadcast address in its last two octets, and is not used |
| PoolAsWritten.PairOrder | ip4_manager.go:129 | inside one block of 256 addresses the two-octet tests are the whole-address comparisons |
| PoolAsWritten.LeaseAgrees | ip4_manager.go:39-63 | on a /24 to /30 network, in a state whose sets are disjoint host addresses, the pool as written leases what the model leases, in every key order |
| PoolAsWritten.TakeLeastAgrees | ip4_manager.go:124-140 | on a /24 to /32 network, with the released addresses strictly between the network number and the broadcast address, the minimum loop as written finds the least of them |
| PoolAsWritten.IssueNextAgrees | ip4_manager.go:143-178 | on a /24 to /30 network, with the used addresses strictly between the network number and the broadcast address, issuing as written is `IssueNext` |
| PoolAsWritten.ReserveAgrees | ip4_manager.go:78 | for an address inside a /16 to /32 network, reserving as written answers as the model does |
| PoolAsWritten.LeastAsWrittenLeasesBroadcast | ip4_manager.go:129 | on a /16 network or a larger one, after base+255 is reserved and released, the lease as written grants the broadcast address; the model grants base+255 |
| PoolAsWritten.RunAsWrittenAgrees | ip4_manager.go:145-170 | on a /16 network or a larger one, after the run base+1 .. m with m below base+256, the lease as written grants m+1 in every key order, as the model does |
| PoolAsWritten.FirstAsWrittenAgrees | ip4_manager.go:50-61 | on a /16 network or a larger one, the first lease as written reserves base+1 and grants base+2, as the model does |
| PoolAsWritten.GreatestAsWrittenStalls | ip4_manager.go:149 | on a /16 network or a larger one, after 255 leases, the lease as written returns no address and no error in every key order; the model grants base+257 |
| PoolAsWritten.ReserveAsWrittenRefusesHost | ip4_manager.go:78 | on a network larger than /16, the host base+65536 is refused as a network address; the model accepts it |
| PoolAsWritten.ReserveAsWrittenMisreportsOwnBroadcast | ip4_manager.go:73-78 | an outside address whose own host bits are all set is reported as a network address; the model reports it as not in the network |
| PoolAsWritten.ReserveAsWrittenMisreportsOutsider | ip4_manager.go:78 | on a /16 network, an outside address ending in .0.0 is reported as a network address; the model reports it as not in the network |
| PoolAsWritten.NoFreeAsWrittenTooEarly | ip4_manager.go:159 | on a network larger than /16, with base+65534 reserved, the lease as written reports no free address; the model grants base+65535 |
| PoolAsWritten.LeaseAsWrittenCrashes | ip4_manager.go:166-173 | on a /31 network the first lease as written unlocks an unlocked mutex; the model returns the not-in-network error and keeps the gateway used |
| MaskCheck.MaskShape | network/network.go:48-57 | the four shapes: leading octets 255, then the table value, then zero octets |
| MaskCheck.CheckMask | network/network.go:46-62 | passes if and only if the mask has one of the four shapes with a table value; otherwise `ErrNetMaskIsNotCorrect` |
| MaskCheck.CheckIPAddress | network/network.go:64-73 | fails with `ErrNetworkIsNotCorrect` if and only if every host bit of the address is set; fails for every address under 255.255.255.255 |
| MaskCheck.NetworkNumberPasses | network/network.go:64-73 | the network number of a /p network with p < 32 passes; its broadcast address does not |
| MaskCheck.NewNetwork | network/network.go:20-44 | a bad mask is refused before the address is looked at; on either failure both fields are empty and the error is that check's; on success the address comes back unmasked, in the 16-byte form of `net.IPv4`, with the four-byte mask |
| MaskCheck.MaskTableAsWritten | network/network.go:17 | with the table as written, 255.255.255.242 (no prefix mask) passes, the /30 mask 255.255.255.252 is refused, and 0.0.0.0 and 255.0.0.0 pass |
| MaskCheck.PrefixTableExact | network/network.go:17 | with 252 in the table, the accepted masks are exactly the prefix masks /0 to /32 |
| NetworkRange.Atoi | pkg/network/network.go:33 | a number exactly for digits, optionally after one sign; unsigned and `+` texts give the decimal value, `-` texts its negation; everything else is a syntax error |
| NetworkRange.ByteLength | pkg/network/network.go:32 | the UTF-8 length lies between the number of characters and four times it, and equals it for ASCII text |
| NetworkRange.VerifiedNetworkData | pkg/network/network.go:26-51 | `ErrNetworkIsNotCorrect` exactly when there is no address, before the mask is read; a one- or two-byte mask fails if and only if it is no number; `ErrNetMaskIsNotCorrect` exactly for a seven-to-fifteen-byte mask that does not parse; a mask comes back if and only if it was given dotted and parsed, with the address; every other input gives no error, no address and no mask |
| NetworkRange.PrefixTextDropped | pkg/network/network.go:32-40 | a prefix length such as "24" gives no error and neither address nor mask |
| NetworkRange.LengthInBytes | pkg/network/network.go:41-44 | a six-character, seven-byte text takes the dotted branch and, not parsing, is a wrong mask |
| NetworkRange.NewNetwork | pkg/network/network.go:53-67 | the error is that of `verifiedNetworkData`; on an error the network is empty; otherwise it holds the verified address and mask, a mask comes back only in dotted form, and every other input gives an empty network and no error |
| NetworkRange.MinimalBytes | pkg/network/network.go:107 | the bytes have the value given and no leading zero |
| NetworkRange.IpToInt | pkg/network/network.go:94-104 | returns if and only if the slice is 4 or 16 bytes long, with its big-endian value below 2^bits and bits = 8 * length |
| NetworkRange.IntToIP | pkg/network/network.go:106-114 | the value's bytes right-aligned in a zero buffer of bits/8 bytes, or a panic when they do not fit |
| NetworkRange.BytesRoundTrip | pkg/network/network.go:94-114 | `intToIP(ipToInt(ip))` gives every slice back: the minimal bytes fit and padding restores the slice |
| NetworkRange.MaskSize | pkg/network/network.go:70 | a mask of p ones then zeros gives (p, bits); any other mask gives (0, 0) |
| NetworkRange.AddressCount | pkg/network/network.go:69-72 | 2^(32-p) for a four-octet /p mask; 0 once the shift reaches 64; 1 for a mask of another form |
| NetworkRange.AddressRange | pkg/network/network.go:74-92 | as many ones as bits: the address twice; otherwise the address and `RangeEnd`, or a panic for a bad length or a mask wider than the address |
| NetworkRange.RangeEnd | pkg/network/network.go:84-91 | the last address has the address's length, is the address OR the host mask, and lies at or above the address and less than the address count above it |
| NetworkRange.RangeEndFits | pkg/network/network.go:89-91 | the value fits the address's width, so `intToIP` does not panic |
| NetworkRange.RangeEndIsBroadcast | pkg/network/network.go:89 | for a four-octet address and /p mask, the last address is the pool's broadcast address, address OR NOT mask |

## Left out

- The `sync.RWMutex` locking of both pool files. Every operation is one atomic step; the model has no concurrency.
- locker/locker.go, network/storage.go, storage/memory/memory.go, storage/memory.go and db/memory.go. They are a lock registry, unused storage drafts and empty constructors; none is part of this model.
- Text parsing and printing: `net.ParseCIDR`, `net.ParseIP` and `String()`. Addresses and prefix lengths are inputs. So is the result of `ParseIP(..).To4()` in pkg/network/network.go, given as an `Option`. The panics of unparsable text (`[4]byte(nil)`, ip4_manager.go:69 and 109) are not modelled.
- Pool.AddressPool.constructor: takes an address and a prefix length; a CIDR text that fails to parse, where the code dereferences a nil network, is not modelled.
- `net.IP` values of 16 bytes in the pool files. The pool works on four octets, which is what `To4()` hands it. In network/network.go the address `NewNetwork` returns is modelled in its 16-byte form; the checks work on its last four bytes, as `To4()` does.
- Slices and maps as shared mutable values. The pool's two maps are set fields of one object, so aliasing through the by-value struct copy is not captured, nor are the fresh slices of `AddressRange` and `intToIP` (the last address is a new value, not a view).
- NetworkRange.Atoi: models `strconv.Atoi` for texts shorter than 19 bytes, which covers the one- and two-byte texts the code gives it; the range error of longer texts is not modelled.
- NetworkRange.VerifiedNetworkData: the mask text is a sequence of Unicode characters measured in UTF-8 bytes; a Go string holding bytes that are not valid UTF-8 is not modelled.
- NetworkRange.AddressRange: a mask wider than the address makes the unsigned host length wrap round, and the shift cannot be done. That case is `Panics`, not the exact Go failure.
- The key order of Go's map iteration is modelled as any order. The as-written lemmas hold for every order; the model of pool.dfy does not depend on it.

## Findings

| source | as written | input that shows it | evidently intended | confidence | as-written member | corrected member |
|---|---|---|---|---|---|---|
| ip4_manager.go:78 (and network.go:78) | a host whose last two octets equal the network number's is called a network address | 10.1.0.0 in 10.0.0.0/8 | only the network number and the broadcast address are network addresses | not executed | PoolAsWritten.ReserveAsWrittenRefusesHost | PoolProperties.ReserveOutcome |
| ip4_manager.go:78 (and network.go:78) | the two-octet test runs before the containment test, so an outside address can be called a network address | 192.168.0.0 in 172.16.0.0/16 | an outside address is reported as not in the network | not executed | PoolAsWritten.ReserveAsWrittenMisreportsOutsider | PoolProperties.ReserveOutcome |
| ip4_manager.go:73-78 (and network.go:73-78) | the network-address test compares the argument with its own `ip OR NOT mask` before containment is tested, so an outside address whose host bits are all set is called a network address, even with whole-address comparisons | 192.168.255.255 in 172.16.0.0/16 | an outside address is reported as not in the network | not executed | PoolAsWritten.ReserveAsWrittenMisreportsOwnBroadcast | PoolProperties.ReserveOutcome |
| ip4_manager.go:129 (and network.go:129) | the minimum search keeps its start, the broadcast address, when no key's last octet is below 255 | 10.0.0.255 reserved and released in 10.0.0.0/16, then a lease | the least released address is leased | not executed | PoolAsWritten.LeastAsWrittenLeasesBroadcast | PoolProperties.LeaseTakesLeastFree |
| ip4_manager.go:149 (and network.go:149) | the maximum search never moves past a key ending in 255, so the next address is already used | 255 leases in 10.0.0.0/16, then a lease (the as-written leases reach that state, `FirstAsWrittenAgrees` and `RunAsWrittenAgrees`) | leases go on with base+257 | not executed | PoolAsWritten.GreatestAsWrittenStalls | PoolProperties.SequentialLeases |
| ip4_manager.go:159 (and network.go:159) | an address ending in 255.255 counts as the broadcast address | 10.0.255.254 reserved in 10.0.0.0/8, then a lease | only the broadcast address ends the pool | not executed | PoolAsWritten.NoFreeAsWrittenTooEarly | PoolProperties.LeaseIssuesNext |
| ip4_manager.go:172 (and network.go:172) | `Unlock` on a mutex that is not write-locked, a fatal error in Go | the first lease on 10.0.0.0/31 | return the not-in-network error of line 173 | not executed | PoolAsWritten.LeaseAsWrittenCrashes | Pool.IssueNext |
| network/network.go:17 | the table holds 242 where the six-ones octet 252 belongs | the masks 255.255.255.242 and 255.255.255.252 | the table holds the nine prefix octets | not executed | MaskCheck.MaskTableAsWritten | MaskCheck.PrefixTableExact |
