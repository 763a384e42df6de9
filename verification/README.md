# A verified model of the SwarmCracker resource bookkeeping

The project models the parts of SwarmCracker that hand out addresses, quote
commands and keep records of virtual machines, and proves what those parts
promise over all inputs and all runs.

* **Address pools** (`Bits`, `ByteStrings`, `Addresses`, `Subnets`, `Ipam`,
  `PoolTheorems`, `ManagerTheorems`). An address is the byte string of a `net.IP`, 4 or 16 bytes
  long, read as a number; the loops over bytes are proved to be +1, -1 and +k on
  that number. A pool is a ledger of used addresses, a reserved list and a moving
  cursor. The theorems say exactly when the bounded scans fail and when they stay in the
  subnet, for every pool and over every run.
* **The network allocator** (`AllocatorModel`, `AllocatorRuns`, `AllocatorResults`,
  `Conservation`, `Allocator`). The classes of `Allocator` follow the Go methods; each is proved
  equal to a function of `AllocatorModel`. `AllocatorRuns` proves exactly in which
  runs ledger and holders agree at every moment. `Conservation` proves that
  each deallocation undoes its allocation.
* **Static addresses and TAP devices** (`StaticAllocator`, `TapTable`,
  `TapTheorems`). A hash-placed, linearly probed table and the TAP map beside it.
* **Shell quoting** (`ShellQuote`). The printer of the init wrapper and a lexer
  written from section 2.2 (Quoting, with 2.2.3 Double-Quotes) and section 2.3
  (Token Recognition) of the POSIX Shell Command Language (IEEE Std 1003.1-2017,
  XCU), proved to undo each other exactly on the arguments of a stated kind.
* **State file** (`StateStore`), **VM lifecycle** (`Lifecycle`) and **VXLAN
  peers** (`PeerSync`): crash steps over memory and disk, an interleaving state
  machine, and a diff loop whose steps may fail.

`Options` holds an option type, `Runs` one fact about runs. `dafny verify dfyconfig.toml` checks everything.

## How to read the model

A class method that changes state is stated as an equation with a specification
function (`Ipam.AllocateFrom`, `AllocatorModel.AllocateTask`, `TapTable.Prepare`,
...). The specification functions have no contracts of their own; the lemmas
named below say what they mean. Results of the operating system (a command that
fails, a file that is not written, a process that exits, the order in which Go
walks a map) are parameters or free choices, so the theorems hold for all of
them. Methods that hold a mutex are single steps. In `Lifecycle` each read and write
of a VM state is a step of its own, and in the runs of `TapTheorems` each attachment.

## Where the code differs from its comments

* `AllocateIP` never tests its first candidate against the subnet
  (`pkg/cni/ipam.go:76-89`). `PoolTheorems.AllocateIPSafe` says exactly when the result
  lies in the subnet. Over the runs of a pool the wraparound never happens at all: the
  addresses handed out only go up, a released address is never handed out again, and
  instead of reporting exhaustion the calls go on beyond the last address
  (`PoolTheorems.NeverExhausted`, `PoolTheorems.AddressesGoUp`). In a subnet of four
  addresses the fourth call leaves it (`PoolTheorems.FourthAllocationLeaves`).
* The scan tries 256 addresses (`pkg/cni/ipam.go:80-102`). On a pool in an arbitrary state
  it is complete exactly when at most 256 addresses lie above the gateway
  (`PoolTheorems.CompleteIff`).
* The VIP range is called the last 16 addresses (`pkg/cni/ipam.go:286-296`). It is
  the 16 addresses from 17 to 32 below the end of the subnet, and the offset
  arithmetic leaves subnets of fewer than 32 addresses
  (`PoolTheorems.VIPWindowInsideIff`).
* The gateway of a network is the base address of its subnet
  (`pkg/cni/provider.go:189`), and no broadcast address is set aside by either
  allocator.
* `GenerateSubnet` overwrites one or two bytes of the pool address without regard
  to the pool prefix (`pkg/cni/config.go:162-179`). The generated subnets lie in the pool
  exactly under the condition of `Subnets.GeneratedInPoolIff`; the default configuration
  fails it with its first network, 1.0.0.0/24 from the pool 10.0.0.0/8
  (`Subnets.DefaultLeavesPool`). They overlap when the new prefix is shorter than the
  overwritten byte (`Subnets.GeneratedDisjointIff`).
* The index repeats after 256 or 65536 networks, and nothing checks whether the network
  made with the same residue is still alive (`pkg/cni/provider.go:182-201`). The next network
  shares a pool exactly when it is (`AllocatorRuns.NextIsFreeIff`), as the 257th network of
  the default configuration does (`AllocatorRuns.DefaultConfigOverflows`).
* A service that names a network twice loses an address at deallocation
  (`pkg/cni/allocator.go:194-217`, `Conservation.ServiceConservationIff`).
* `CleanupNetwork` selects TAP keys by the prefix `ID-`, so one task can take the
  devices of another (`pkg/network/manager.go:494-517`,
  `TapTheorems.CleanupSparesIff`, `TapTheorems.CleanupSparesNamedIff`).
* `CleanupNetwork` releases addresses but leaves them in the attachments that
  `PrepareNetwork` filled in (`pkg/network/manager.go:381-386`). A second `PrepareNetwork` of
  the same task takes them for SwarmKit addresses and does not ask the allocator, which may
  give them to another VM (`TapTheorems.SecondPrepareBreaks`, with the exact condition in
  `TapTheorems.RunsAgreeIff`).
* When the first device of a task cannot be made, the address allocated for it stays taken,
  and `CleanupNetwork` does not find it (`pkg/network/manager.go:1097-1110`,
  `TapTheorems.CleanupRestoresIff`).
* An argument that already looks quoted, is empty, or starts with `#` or `~` is
  printed as it is and does not come back (`pkg/image/wrapper.go:141-154`,
  `ShellQuote.EscapeRoundTripIff`).
* `Add` undoes a failed save by deleting its entry, so it loses an earlier entry
  of the same identifier from memory, and with the next save from disk
  (`pkg/runtime/state.go:104-109`, `StateStore.FailedAddIsUndoneIff`).
* The guard against concurrent stops in `Stop` is a read followed by a separate
  write; it fails exactly when two Stop calls are in progress (`pkg/lifecycle/vmm.go:382-391`,
  `Lifecycle.StopsOverlapIff`). A `Stop` that has looked a VM up can mark it Stopping between
  the check and the deletion of `Remove`, which then deletes it alive and unkilled; without
  such a `Stop` that cannot happen (`Lifecycle.DeletedStoppingIff`,
  `Lifecycle.DeletedStoppingIsReached`).
* `forceKillVM` leaves the state as it is (`pkg/lifecycle/vmm.go:684-691`), so a
  VM killed after a failed graceful stop stays Stopping until a `Describe` sees
  that it is dead (`Lifecycle.StuckIsReached`, `Lifecycle.StuckUntilDescribed`,
  `Lifecycle.DescribeThenRemove`).

## Model

| member | source | states |
|---|---|---|
| ByteStrings.IncrementBytes | pkg/cni/ipam.go:247-259 | the carry loop on any byte string is +1 modulo 256^len of its value, at the same length |
| ByteStrings.DecrementBytes | pkg/cni/ipam.go:262-274 | the borrow loop on any byte string is -1 modulo 256^len of its value, at the same length |
| ByteStrings.IncrementAbove | pkg/network/manager.go:195-221 | a carry loop stopped at a byte position is +1 unless every byte above it is 255; then those bytes are cleared and the rest is untouched |
| ByteStrings.StepsInverse | pkg/cni/ipam.go:247-274 | increment and decrement undo each other in both orders on every byte string |
| ByteStrings.ValueInjective | pkg/cni/ipam.go:247-274 | reading bytes as a number loses nothing at a fixed length, so the refinement to numbers is faithful |
| Addresses.OctetsRoundTrip | pkg/cni/ipam.go:247-274 | the number and length of an address and its bytes determine each other, for 4 and for 16 bytes |
| Addresses.IncrementIP | pkg/cni/ipam.go:247-259 | the byte loop computes the successor of an address in its own length, wrapping at the end |
| Addresses.DecrementIP | pkg/cni/ipam.go:262-274 | the byte loop computes the predecessor of an address in its own length, wrapping at zero |
| Addresses.NextPrevInverse | pkg/cni/ipam.go:247-274 | successor and predecessor of addresses are mutual inverses, wrap-around included |
| Addresses.IncIP | pkg/network/manager.go:195-221 | incIP is the same successor as incrementIP on 4-byte addresses, and in the 16-byte form wraps inside the IPv4 block where incrementIP would leave it |
| Addresses.IncIPIs | pkg/network/manager.go:195-221 | on 4-byte and non-IPv4 addresses incIP steps as incrementIP does; on a 16-byte IPv4 address it goes to the next IPv4 address and from 255.255.255.255 to 0.0.0.0 |
| Subnets.ContainsIsMaskedEquality | pkg/cni/ipam.go:86-88 | being in the range of a network is exactly having an IPv4 form whose masked value is the network address |
| Subnets.GetVIPRangeStart | pkg/cni/ipam.go:288-316 | the byte loops compute the base plus the VIP offset without carries, the zero-length case included |
| Subnets.AddBytes | pkg/cni/ipam.go:298-313 | the loop adds to each byte the matching byte of the offset and drops every carry |
| Subnets.CarryFreeAddition | pkg/cni/ipam.go:298-313 | adding without carries is true addition whenever the address is aligned to a power of two above the offset |
| Subnets.GenerateSubnet | pkg/cni/config.go:143-185 | the in-place byte edits give the specified subnet, and fail exactly on a bad pool or a byte position outside 0 to 3 |
| Subnets.GeneratedBytesAre | pkg/cni/config.go:157-182 | with d = 32 - pool prefix - new prefix, byte d/8 of the result (0 for d from -7 to -1) is the index modulo 256, the byte before it index/256 modulo 256, all others are the pool's, and the prefix is the new one |
| Subnets.GenerateFailsIff | pkg/cni/config.go:143-161 | it fails if and only if the pool is bad, d is 32 or more, or d is -8 or less |
| Subnets.IndexSpaceIs | pkg/cni/config.go:157-179 | indices are told apart modulo 256 when d is below 8 and modulo 65536 otherwise |
| Subnets.DistinctIndicesDisjoint | pkg/cni/config.go:157-184 | when the prefix covers the overwritten byte, indices that differ modulo 256 (or 65536) give disjoint address ranges |
| Subnets.ShortPrefixOverlaps | pkg/cni/config.go:157-184 | when the prefix stops short of that byte, an even index and the next one give overlapping ranges |
| Subnets.GeneratedDisjointIff | pkg/cni/config.go:143-185 | all generated ranges with distinct indices are disjoint if and only if the prefix covers the overwritten byte |
| Subnets.SameSubnetIff | pkg/cni/config.go:143-185 | two indices generate the same subnet text if and only if they agree modulo the index space |
| Subnets.GeneratedInPoolIff | pkg/cni/config.go:143-185 | every generated range lies in the pool if and only if its prefix is no shorter than that of the pool and the pool prefix ends before the first overwritten byte |
| Subnets.WiderNotWithin | pkg/cni/config.go:143-185 | a network with a shorter prefix never fits into one with a longer prefix |
| Subnets.DefaultLeavesPool | pkg/cni/config.go:143-185 | with the default pool and prefix the first generated network is 1.0.0.0/24, outside 10.0.0.0/8 |
| Subnets.GeneratorPeriod | pkg/cni/config.go:143-185 | the generator repeats after 256 networks (byte position 0) or 65536 networks |
| Subnets.GeneratedAligned | pkg/cni/config.go:157-184 | a generated subnet has no host bits set exactly when the pool address has none |
| Subnets.ParsedTextIff | pkg/cni/provider.go:189-199 | the parsed network prints the text it came from exactly when that text has no host bits, so pools are found again under that condition |
| Ipam.IPPool.IsReserved | pkg/cni/ipam.go:277-284 | the loop answers whether some reserved address equals the argument, whatever its length of representation |
| Ipam.IPPool.AllocateNext | pkg/cni/ipam.go:74-102 | the scan of at most 256 candidates is the specified one on the ledger, the cursor and the result |
| Ipam.IPPool.AllocateHighest | pkg/cni/ipam.go:172-196 | the downward scan of 16 candidates is the specified one; the cursor and the reserved list are untouched |
| Ipam.IPAMManager.CreatePool | pkg/cni/ipam.go:30-60 | an existing pool is kept; a new one starts with its gateway reserved and the cursor after it; bad text fails and other pools are unchanged |
| Ipam.IPAMManager.AllocateIP | pkg/cni/ipam.go:63-103 | only the named pool can change, by the specified scan; a missing pool fails |
| Ipam.IPAMManager.AllocateVIP | pkg/cni/ipam.go:163-197 | only the named pool can change, by the specified downward scan; a missing pool fails |
| Ipam.IPAMManager.ReleaseIP | pkg/cni/ipam.go:106-125 | exactly the released address leaves the ledger of the named pool; unknown pools and addresses fail without effect |
| ManagerTheorems.ParsedIs | pkg/cni/config.go:129-135 | the network of a CIDR text has its prefix length, contains its address and starts at a multiple of its size; the address comes back as written, in 16 bytes; anything else fails |
| ManagerTheorems.CreatedIs | pkg/cni/ipam.go:30-60 | a pool that exists stays; a new one is empty, reserves its gateway, by default the address after the one written, and starts after it |
| ManagerTheorems.AllocateIPResult | pkg/cni/ipam.go:63-103 | for every pool AllocateIP takes the first of 256 candidates that is neither used nor reserved, the cursor when that is free, and never a reserved one; it fails if and only if there is no pool or all 256 are used or reserved, and then changes nothing |
| ManagerTheorems.AllocateIPInSubnet | pkg/cni/ipam.go:63-103 | in a subnet with hosts that is the first free address upward from the cursor, and after the last address from the gateway; failure means that every address of the window is taken |
| ManagerTheorems.NewPoolInOrder | pkg/cni/ipam.go:30-103 | after CreatePool, AllocateIP call k gives the address k above the gateway, for every number of calls |
| ManagerTheorems.VIPStartIs | pkg/cni/ipam.go:288-316 | the VIP range starts 17 below the end of a subnet of at least 32 addresses and at the base of a smaller one |
| ManagerTheorems.AllocateVIPResult | pkg/cni/ipam.go:163-197 | AllocateVIP takes the first of 16 addresses downward that is neither used nor reserved, under vip: and the service, for every subnet; it fails if and only if there is no pool or all 16 are taken |
| ManagerTheorems.ReleaseResult | pkg/cni/ipam.go:106-125 | a release succeeds if and only if the pool exists and the address is used; then exactly that address leaves the ledger |
| PoolTheorems.AllocateIPSafe | pkg/cni/ipam.go:63-103 | AllocateIP adds exactly one key that was neither used nor reserved, under its owner; the address is in the subnet if and only if the cursor was, or stood on a taken address |
| PoolTheorems.AllocateIPFailsIff | pkg/cni/ipam.go:74-102 | for every pool size and cursor AllocateIP fails if and only if every address of its window is used or reserved: from the cursor up to the end, and with the attempts left, up from the gateway |
| PoolTheorems.SmallExhaustedIff | pkg/cni/ipam.go:74-102 | with at most 256 addresses that window is every address above the gateway and every one from the cursor on, whatever the sound cursor |
| PoolTheorems.CompleteIff | pkg/cni/ipam.go:80-102 | exhaustion is reported only when every address above the gateway is taken, for all ledgers and cursors above the gateway, if and only if there are at most 256 of them |
| PoolTheorems.GivesUpEarly | pkg/cni/ipam.go:80-102 | with more than 256, a pool whose first 256 addresses are used reports exhaustion while the next one is free |
| PoolTheorems.VIPWindowInsideIff | pkg/cni/ipam.go:288-316 | the 16 VIP candidates all lie in the subnet if and only if it has at least 5 host bits; they are then the offsets 2^h-17 down to 2^h-32 |
| PoolTheorems.AllocateVIPHighestFree | pkg/cni/ipam.go:163-197 | AllocateVIP takes the highest free address of that window under the service owner and fails if and only if all 16 are taken |
| PoolTheorems.PoolRunInvariant | pkg/cni/ipam.go:30-202 | over every run of allocations, VIP allocations and releases the cursor stays above the gateway, the gateway is never handed out, and above the cursor only VIPs are used |
| PoolTheorems.NeverExhausted | pkg/cni/ipam.go:63-103 | over every run AllocateIP never fails: it gives the first address from the cursor on that is no VIP, inside the subnet if and only if the cursor is |
| PoolTheorems.AddressesGoUp | pkg/cni/ipam.go:63-125 | over every run each address AllocateIP gives is greater than all it gave before, so a released address is never given again |
| PoolTheorems.AllocationsInOrder | pkg/cni/ipam.go:63-103 | allocation n of a run of allocations gives the address n above the gateway, inside the subnet if and only if that is no later than its last one |
| PoolTheorems.FourthAllocationLeaves | pkg/cni/ipam.go:63-103 | in a subnet of four addresses with the base as gateway the fourth AllocateIP gives the address after the last |
| AllocatorRuns.GoodConfigGenerates | pkg/cni/provider.go:181-199 | for a configuration whose prefix covers the overwritten byte and whose pool address has no host bits, every generated text is valid, found again under its printed form, and equal to another exactly on equal residues |
| AllocatorRuns.AllocateNetKeepsIff | pkg/cni/allocator.go:60-115 | creating a network keeps the ledger if and only if no live network is on the generated subnet; a failing creation always keeps it |
| AllocatorRuns.DeallocateNetKeepsIff | pkg/cni/allocator.go:118-146 | removing a network keeps the ledger if and only if no task holds an address on it |
| AllocatorRuns.AllocateServiceKeeps | pkg/cni/allocator.go:185-238 | AllocateService keeps the ledger on any list of networks, on partial failure and on the ingress overwrite |
| AllocatorRuns.DeallocateServiceKeeps | pkg/cni/allocator.go:241-276 | DeallocateService keeps the ledger on any list of networks and any ingress network |
| AllocatorRuns.AllocateTaskKeeps | pkg/cni/allocator.go:297-322 | AllocateTask keeps the ledger from any attachment on, also when it stops half-way |
| AllocatorRuns.DeallocateTaskKeeps | pkg/cni/allocator.go:325-354 | DeallocateTask keeps the ledger: an address leaves the ledger only together with its holder |
| AllocatorRuns.AttachmentKeeps | pkg/cni/allocator.go:360-404 | AllocateAttachment keeps the ledger, also when the node was attached before |
| AllocatorRuns.DetachmentKeeps | pkg/cni/allocator.go:407-439 | DeallocateAttachment keeps the ledger |
| AllocatorResults.AllocateNetResult | pkg/cni/allocator.go:60-115 | which networks are made and when the call fails; a new one has the generated subnet, the address written as its gateway and pool gateway, and the ingress flag asked for |
| AllocatorResults.DeallocateNetResult | pkg/cni/allocator.go:118-146 | exactly the network and the pool of its subnet are gone |
| AllocatorResults.ServiceRoundsResult | pkg/cni/allocator.go:194-217 | on success every network of the service records a VIP under the right names; the loop stops at the first network that is unknown or whose range is full |
| AllocatorResults.PublishedOnIngress | pkg/cni/allocator.go:219-235 | a service with ports is on the ingress network afterwards if there is one, without a VIP; other networks are as the rounds left them |
| AllocatorResults.ServiceForgotten | pkg/cni/allocator.go:241-276 | no record of the service remains on its networks nor on the ingress network met; all other records remain |
| AllocatorResults.TaskResult | pkg/cni/allocator.go:297-322 | attachments are filled in order up to the first whose network is unknown or whose pool gives none; success means there is none, and later ones are untouched |
| AllocatorResults.TaskRoundResult | pkg/cni/allocator.go:306-319 | an attachment gets exactly the one address AllocateIP gives the task |
| AllocatorResults.AttachmentResult | pkg/cni/allocator.go:360-404 | record and attachment of a node name the one address AllocateIP gives it |
| AllocatorResults.DetachmentResult | pkg/cni/allocator.go:407-439 | the recorded address is released, record and addresses go; without a record nothing happens |
| AllocatorResults.RunsKeepClean | pkg/cni/allocator.go:60-439 | over every run each pool reserves the base address of its subnet and has not given it out, each network has it as its gateway, and every record carries the names it is filed under |
| AllocatorResults.NobodyHoldsGateway | pkg/cni/allocator.go:60-439 | over every run, while the ledger holds, no service, node or task holds a gateway or another reserved address |
| AllocatorRuns.StepKeepsLedgerIff | pkg/cni/allocator.go:60-439 | every operation keeps the ledger (each live network has a pool of its own, every held address is in it under its own owner, no two holders share one) if and only if a new subnet is free and a removed network holds no task |
| AllocatorRuns.RunsKeepLedgerIff | pkg/cni/allocator.go:60-439 | over every run of any length from an empty allocator the ledger holds at every moment if and only if that was so at every step |
| AllocatorRuns.NextIsFreeIff | pkg/cni/provider.go:177-201 | in every run the next subnet is free if and only if its index differs from that of every live network modulo the index space |
| AllocatorRuns.OneNetworkTooMany | pkg/cni/provider.go:177-201 | making one network more than there are indices is a run that keeps the ledger until its last step, which puts the last network on the pool of the first |
| AllocatorRuns.DefaultConfigOverflows | pkg/cni/provider.go:177-201 | with the default configuration the ledger holds after 256 networks and is broken by the 257th |
| AllocatorRuns.SharedPoolLost | pkg/cni/allocator.go:118-146 | when two networks share a pool, removing one leaves the other without a pool |
| AllocatorRuns.DefaultConfigGood | pkg/cni/config.go:143-185 | the default pool 10.0.0.0/8 with /24 subnets is such a configuration and has 256 indices |
| AllocatorRuns.GoodConfigIff | pkg/cni/config.go:143-185 | that condition in terms of the two prefix lengths and the pool address alone |
| Conservation.TaskConservation | pkg/cni/allocator.go:297-354 | for a task without addresses on any networks, a successful AllocateTask then DeallocateTask restores every ledger, every holder and the task |
| Conservation.AttachmentConservation | pkg/cni/allocator.go:360-439 | for a node not attached to the network, AllocateAttachment then DeallocateAttachment restores every ledger and every holder |
| Conservation.ServiceConservation | pkg/cni/allocator.go:185-276 | for a service on no network and without ports, on distinct networks, AllocateService then DeallocateService restores the whole state |
| Conservation.ServiceConservationIff | pkg/cni/allocator.go:185-276 | that round trip restores the state if and only if no network is named twice |
| Conservation.RepetitionOrphans | pkg/cni/allocator.go:194-217 | a network named twice leaves an address that is taken although no network records it for the service |
| Conservation.OrphanOutlives | pkg/cni/allocator.go:241-276 | DeallocateService never gives back an address that no network records |
| Allocator.CNIProvider.AllocateNetwork | pkg/cni/provider.go:177-243 | the index is consumed and the pool stays even when a later step fails; on success subnet and gateway are those of the new pool |
| Allocator.CNINetworkAllocator.Allocate | pkg/cni/allocator.go:60-115 | an allocated network is left alone, an unknown driver fails early, otherwise the provider's pool backs the new network |
| Allocator.CNINetworkAllocator.Deallocate | pkg/cni/allocator.go:118-146 | exactly the network and its pool go; the objects of all other pools are untouched |
| Allocator.CNINetworkAllocator.AllocateServiceOn | pkg/cni/allocator.go:194-217 | one round records a VIP on its network exactly when the pool gave one, and fails on an unknown network |
| Allocator.CNINetworkAllocator.AllocateService | pkg/cni/allocator.go:185-238 | the loop with its early return and the ingress walk change networks and pools as specified, for some first ingress network |
| Allocator.CNINetworkAllocator.DeallocateService | pkg/cni/allocator.go:241-276 | the loop skips unknown networks, ignores failing releases and forgets the service on the first ingress network |
| Allocator.CNINetworkAllocator.FindIngress | pkg/cni/allocator.go:221-234 | the walk over the networks finds an ingress network if and only if there is one |
| Allocator.CNINetworkAllocator.AllocateTask | pkg/cni/allocator.go:297-322 | the loop over attachments writes each address into the task as the pools give it and stops at the first failure |
| Allocator.CNINetworkAllocator.DeallocateTask | pkg/cni/allocator.go:325-354 | the loop releases the first address of each attachment that parses and clears exactly those attachments |
| Allocator.CNINetworkAllocator.AllocateAttachment | pkg/cni/allocator.go:360-404 | on success ledger, network record and attachment name the same address; on failure nothing changes |
| Allocator.CNINetworkAllocator.DeallocateAttachment | pkg/cni/allocator.go:407-439 | the recorded address is released, the record and the attachment's addresses go; an unknown network or node is a no-op |
| StaticAllocator.IPAllocator.FindOwned | pkg/network/manager.go:90-95 | the walk over the table returns an address of the VM if and only if it has one |
| StaticAllocator.IPAllocator.Allocate | pkg/network/manager.go:86-141 | a VM with an address gets it again and the table is unchanged; otherwise it gets the probed one, or the error of exhaustion |
| StaticAllocator.IPAllocator.Release | pkg/network/manager.go:224-228 | exactly the released address leaves the table |
| StaticAllocator.PlaceSound | pkg/network/manager.go:97-141 | a placed address was free, is not the gateway, lies in the subnet above its base, and is the only change, for prefixes /1 to /30 |
| StaticAllocator.PlaceFailsIff | pkg/network/manager.go:97-141 | for every subnet of prefix /1 to /30 Allocate fails if and only if each address that 256 attempts from the preferred one reach, restarting two above the base, is taken or the gateway |
| StaticAllocator.SmallPlaceFailsIff | pkg/network/manager.go:97-141 | with at most 256 addresses those are the preferred address and all from base+2 to the last |
| StaticAllocator.PlaceIsFirst | pkg/network/manager.go:97-141 | a VM gets its preferred address when free, and otherwise the first free one in probing order |
| StaticAllocator.PreferredIff | pkg/network/manager.go:144-192 | an address is preferred exactly by the VMs whose hash is congruent to its position among the host addresses, or among all of a subnet of one or two |
| StaticAllocator.SamePreferenceIff | pkg/network/manager.go:144-192 | two VMs prefer the same address if and only if their hashes agree modulo the size less two, or modulo the size in a subnet of one or two |
| StaticAllocator.SpreadIff | pkg/network/manager.go:144-192 | hashes that differ so and avoid the gateway are exactly distinct preferences off the gateway |
| StaticAllocator.RunInvariant | pkg/network/manager.go:86-228 | over every run of allocations and releases the table is injective and holds only host addresses other than the gateway |
| StaticAllocator.SpreadPlacement | pkg/network/manager.go:86-192 | VMs whose hashes differ modulo the number of choices and avoid the gateway each end at their preferred address, in any order and with repetitions |
| StaticAllocator.OrderIndependence | pkg/network/manager.go:86-192 | VMs with such hashes end with the same table in every allocation order |
| StaticAllocator.OrderMattersIff | pkg/network/manager.go:86-192 | for two VMs that do not prefer the gateway the order is irrelevant if and only if their preferred addresses differ |
| TapTable.NetworkManager.CreateTapDevice | pkg/network/manager.go:1065-1198 | an address given to the attachment is taken as it is; in static mode one is allocated; when the kernel step fails the address stays with the task |
| TapTable.NetworkManager.Attach | pkg/network/manager.go:349-402 | one round stores a TAP under the task's key on success and changes nothing else of the TAP map |
| TapTable.NetworkManager.PrepareNetwork | pkg/network/manager.go:292-486 | the default network of a task without attachments, the CNI loop and the plain loop change TAPs, table and attachments as specified and stop at the first failure |
| TapTable.NetworkManager.CleanupNetwork | pkg/network/manager.go:489-537 | every TAP under the task's prefix goes, its addresses are released, and nothing else changes |
| TapTable.AllocationKeepsOne | pkg/network/manager.go:86-141 | an assigned address was free or already the VM's, whatever the map order; one address each is kept and no other VM's entry changes |
| TapTheorems.AttachResult | pkg/network/manager.go:349-486 | one attachment, with the plugin or the device deciding: its success, the key, name and address of its TAP, and what is allocated |
| TapTheorems.PrepareSucceedsIff | pkg/network/manager.go:292-486 | PrepareNetwork succeeds if and only if every device is made, or given by the plugin without an error; without attachments the default device must be made twice |
| TapTheorems.PrepareLeaves | pkg/network/manager.go:292-402 | it leaves exactly one TAP for each attachment under different names, with the address the attachment has afterwards, and no other TAP changes |
| TapTheorems.DecimalReadsBack | pkg/network/manager.go:1068-1071 | the printed index reads back as the index, in digits without a leading zero |
| TapTheorems.NamesDiffer | pkg/network/manager.go:1068-1071 | two devices of a task have the same name if and only if they have the same index |
| TapTheorems.CleanupResult | pkg/network/manager.go:489-537 | exactly the TAPs under the identifier and a dash go, and exactly the addresses they carry leave the table |
| TapTheorems.CleanupRestoresIff | pkg/network/manager.go:292-537 | cleanup undoes a prepare, failed or not, of a task that held nothing if and only if its first device was made or no address was granted; otherwise the address stays taken |
| TapTheorems.CleanupRestores | pkg/network/manager.go:292-537 | a successful prepare of a task that held nothing, then its cleanup, restores TAP map and table exactly |
| TapTheorems.AttachKeepsAgreeIff | pkg/network/manager.go:372-486 | attaching keeps every TAP address backed by the table if and only if the address that the attachment or the CNI result brings along is already in the table under the task |
| TapTheorems.RunsAgreeIff | pkg/network/manager.go:292-537 | over every run of attachments and cleanups, on any attachments, failed steps and interleaved tasks included, each address on a TAP is in the table under its task at every moment if and only if every step met that condition |
| TapTheorems.PrepareIsSteps | pkg/network/manager.go:292-486 | an undisturbed PrepareNetwork, whatever fails in it, is a sequence of such steps, attachments filled in included |
| TapTheorems.PrepareKeepsAgree | pkg/network/manager.go:292-486 | PrepareNetwork keeps TAPs and table in step for every outcome when its attachments carry no address, or without CNI only addresses the table has under the task |
| TapTheorems.SecondPrepareBreaks | pkg/network/manager.go:292-537 | prepare, cleanup and prepare again of one task puts an address on a TAP that the table does not have, and that a VM with the same preferred address is given |
| TapTheorems.CleanupKeepsAgree | pkg/network/manager.go:489-537 | cleaning up one of a prefix-free set of tasks leaves the addresses on all remaining TAPs backed by the table |
| TapTheorems.CleanupSparesIff | pkg/network/manager.go:494-517 | cleanup of a task spares another's TAPs, whatever their names, if and only if neither identifier-and-dash starts the other |
| TapTheorems.CleanupSparesNamedIff | pkg/network/manager.go:494-517 | for the names createTapDevice makes, it does so if and only if its identifier-and-dash does not start the other and it is not the other followed by -tap or by -tap- and the digest |
| ShellQuote.NeedsShellEscaping | pkg/image/wrapper.go:167-176 | the nested loops find a special character if and only if there is one |
| ShellQuote.BuildCommandString | pkg/image/wrapper.go:188-198 | the loop joins the escaped arguments with single spaces, and gives /bin/sh for an empty list |
| ShellQuote.EscapeArgument | pkg/image/wrapper.go:141-154 | empty, matching-quoted and plain arguments are returned as they are, all others escaped |
| ShellQuote.FourPassesAreOne | pkg/image/wrapper.go:157-164 | the four ReplaceAll passes in sequence equal one simultaneous escape of each character |
| ShellQuote.EscapeValueIsEachCharacter | pkg/image/wrapper.go:157-164 | shellEscapeValue is that simultaneous escape between double quotes |
| ShellQuote.EscapeValueRoundTrip | pkg/image/wrapper.go:157-164 | lexing an escaped value gives back the single word, for every NUL-free string |
| ShellQuote.CommandRoundTrip | pkg/image/wrapper.go:188-198 | lexing the printed command gives back exactly the argument list, for every non-empty list of arguments of the faithful kind |
| ShellQuote.EscapeRoundTripIff | pkg/image/wrapper.go:141-154 | a single NUL-free argument comes back if and only if it is non-empty, not already in matching quotes, and does not start with a hash or a tilde that nothing else in it causes to be quoted |
| ShellQuote.EscapeUnchangedIff | pkg/image/wrapper.go:141-176 | an argument is printed as it is if and only if it is in matching quotes or has none of the listed characters; otherwise it is escaped between double quotes |
| ShellQuote.EmptyCommandIsShell | pkg/image/wrapper.go:188-191 | the command string of an empty list is read as the one word /bin/sh |
| ShellQuote.ParseEnvVarIs | pkg/image/wrapper.go:179-185 | the key has no equals sign and is the part before the first one, the value is the rest; without one the key is the entry and the value empty |
| ShellQuote.ExportRoundTrip | pkg/image/wrapper.go:34-185 | an environment entry split at its first equals sign and printed as an export line lexes back to export and the entry; one without an equals sign comes back with an empty value |
| StateStore.StateManager.Load | pkg/runtime/state.go:207-233 | memory is rebuilt from the file keyed by identifier; a missing or unreadable file fails and leaves memory alone, an empty one only leaves it alone |
| StateStore.StateManager.Save | pkg/runtime/state.go:236-262 | from before the first write to after the rename, every crash point recovers the old or the new map, and success makes it the new one |
| StateStore.StateManager.Add | pkg/runtime/state.go:85-112 | an empty identifier is refused, defaults are filled in, a failed save drops the entry; the disks passed through are those of one save of the map, and each recovers the map before or after |
| StateStore.StateManager.UpdateStatus | pkg/runtime/state.go:144-161 | one field of one entry changes in memory even when the save fails; the disks passed through are those of one save, and each recovers the map before or after |
| StateStore.StateManager.UpdateError | pkg/runtime/state.go:164-183 | message, time and status of one entry change together; the disks passed through are those of one save, and each recovers the map before or after |
| StateStore.StateManager.Remove | pkg/runtime/state.go:186-204 | exactly one entry leaves memory; the disks passed through are those of one save, and each recovers the map before or after |
| StateStore.StateManager.Reconcile | pkg/runtime/state.go:277-302 | exactly the running entries that are not alive become stopped and are counted; the disks passed through are those of one save when there are some, and the old disk alone otherwise |
| StateStore.StateManager.ClearStale | pkg/runtime/state.go:305-322 | exactly the stopped and error entries go and are counted; the disks passed through are those of one save when there are some, and the old disk alone otherwise |
| StateStore.ReconcileMap | pkg/runtime/state.go:281-295 | the loop that edits entries while walking the map changes each stale entry once, in any order |
| StateStore.ClearMap | pkg/runtime/state.go:309-315 | the loop that deletes while walking the map deletes exactly the finished entries, in any order |
| StateStore.DefaultedIs | pkg/runtime/state.go:91-99 | Add makes an unset status running and an unset start time the present one, and keeps set ones and all other fields |
| StateStore.ReconcileIs | pkg/runtime/state.go:281-295 | exactly the entries with status running that are not alive become stopped, with reason and time, and are counted; all others are unchanged |
| StateStore.ClearIs | pkg/runtime/state.go:309-315 | an entry remains if and only if its status is neither stopped nor error, unchanged; the others are counted |
| StateStore.RebuildKeepsLast | pkg/runtime/state.go:226-230 | of entries with one identifier the last is kept |
| StateStore.RecoveredIs | pkg/runtime/state.go:47-82 | a manager starts empty without a file or with an empty one, with the entries of a whole one, and fails on a torn one |
| StateStore.SaveSteps | pkg/runtime/state.go:236-262 | the file is untouched until the rename, the whole temporary file is written before it, and a temporary file is left only by a failing write |
| StateStore.LoadAfterSave | pkg/runtime/state.go:207-262 | whatever order the entries were written in, loading rebuilds exactly the saved map |
| StateStore.SaveTrailAtomic | pkg/runtime/state.go:236-262 | every disk state on the way of a save, torn writes included, recovers the old or the new map; the last one recovers the new map when the save succeeds and what was there before when it fails |
| StateStore.FailedAddIsUndoneIff | pkg/runtime/state.go:104-109 | after a failed Add the next successful save leaves on disk what memory held before it if and only if the identifier was new; otherwise the earlier entry is gone from disk too |
| StateStore.ReconcileThenClear | pkg/runtime/state.go:277-322 | a second reconcile with the same answers changes nothing; a ClearStale after the first keeps exactly the entries that were not stopped, not in error and not running without a process, unchanged, so every live running VM is kept |
| Lifecycle.RunsKeepInv | pkg/lifecycle/vmm.go:129-691 | every run of interleaved steps and exits keeps the invariant |
| Lifecycle.Reachable | pkg/lifecycle/vmm.go:129-691 | in every reachable world instances are only Running, Stopping or Stopped, a Stopping one is killed or attended, and an untracked one with an init system is dead, killed or still being stopped |
| Lifecycle.StoppingRefused | pkg/lifecycle/vmm.go:370-388 | a new Stop or Remove on a Stopping VM leaves the world unchanged |
| Lifecycle.DescribeRecordsDeath | pkg/lifecycle/vmm.go:572-634 | Describe of a dead VM records it as Stopped, whatever its state was |
| Lifecycle.DescribeLive | pkg/lifecycle/vmm.go:572-634 | Describe of a VM that is alive changes nothing |
| Lifecycle.LookupsAndStart | pkg/lifecycle/vmm.go:129-257 | calls on unknown VMs and a Start of a known one or that fails change nothing; a successful Start tracks a new running instance |
| Lifecycle.LockBlocks | pkg/lifecycle/vmm.go:637-643 | while a Remove runs no other call looks a VM up and none is started |
| Lifecycle.StopRecordsExit | pkg/lifecycle/vmm.go:370-472 | Stop marks a Running VM Stopping and records Stopped once its process has exited; with an init system not before |
| Lifecycle.RemoveKillsRunning | pkg/lifecycle/vmm.go:637-681 | Remove of a Running VM, with or without an init system, kills its process and deletes its entry |
| Lifecycle.CheckedKills | pkg/lifecycle/vmm.go:660-666 | in every world the second look of Remove kills the process if and only if it finds the VM Running |
| Lifecycle.UntrackedWasRemoved | pkg/lifecycle/vmm.go:129-691 | over every run a VM no longer tracked has been killed by a Remove that found it Running, or a Remove came to it while it was Stopping or Stopped |
| Lifecycle.RemoveTakesStopped | pkg/lifecycle/vmm.go:637-681 | Remove of a Stopped VM deletes its entry and nothing else |
| Lifecycle.DescribeThenRemove | pkg/lifecycle/vmm.go:572-681 | once the process is dead, Describe followed by Remove always removes the VM |
| Lifecycle.StuckUntilDescribed | pkg/lifecycle/vmm.go:408-691 | a Stopping VM with no call that could record its end stays tracked and Stopping through every run without a Describe of that VM |
| Lifecycle.GiveUpSticks | pkg/lifecycle/vmm.go:452-471 | a Stop that gives up waiting kills the process and leaves the VM so, when no other call is about to record its end |
| Lifecycle.StuckIsReached | pkg/lifecycle/vmm.go:370-472 | a run from the empty manager ends with such a VM: its only Stop gives up |
| Lifecycle.StopsOverlapIff | pkg/lifecycle/vmm.go:382-391 | from a VM that is neither Stopping nor Starting the calls in progress can lead to two Stops at work on it if and only if two Stop calls are in progress on it |
| Lifecycle.TwoStopsAreReached | pkg/lifecycle/vmm.go:370-391 | a run from the empty manager ends with two Stops at work on one VM |
| Lifecycle.DeletedStoppingIff | pkg/lifecycle/vmm.go:637-681 | a Remove past its check can come to delete a Stopping VM if and only if some Stop call has looked that VM up and not yet marked it; otherwise it deletes from Running or Stopped |
| Lifecycle.DeletedStoppingIsReached | pkg/lifecycle/vmm.go:637-681 | a run from the empty manager deletes a Stopping VM whose process is alive and not killed |
| Lifecycle.HardStopCanLeak | pkg/lifecycle/vmm.go:475-681 | without an init system a hard stop can be recorded while the process lives, and Remove then drops it unkilled |
| Lifecycle.LeakIsReached | pkg/lifecycle/vmm.go:475-681 | a run from the empty manager ends so |
| PeerSync.StaticPeerStore.GetPeers | pkg/network/vxlan.go:47-56 | the list has each stored peer exactly once, in some order |
| PeerSync.VXLANManager.AddPeerForwarding | pkg/network/vxlan.go:269-293 | a forwarding entry is there afterwards if and only if it was before or the command succeeded for that peer |
| PeerSync.VXLANManager.AddListed | pkg/network/vxlan.go:371-386 | the loop that deletes from its working map leaves in it exactly the unlisted peers, and stores exactly the listed ones that were stored or that succeeded |
| PeerSync.VXLANManager.UpdatePeers | pkg/network/vxlan.go:358-395 | the store becomes the listed peers that were stored or were added with success, for any duplicates and failures; a missing link changes nothing |
| PeerSync.UpdatedIs | pkg/network/vxlan.go:371-392 | which peers are stored and for which forwarding is attempted with success, peer by peer |
| PeerSync.ForwardingKept | pkg/network/vxlan.go:358-395 | if every stored peer had a forwarding entry, every stored peer has one afterwards |
| PeerSync.SettledIff | pkg/network/vxlan.go:358-395 | after a call, further calls with the same list change nothing, whatever fails in them, if and only if the store equals the list; it does when all additions succeed |
| PeerSync.RepeatedConverges | pkg/network/vxlan.go:358-395 | after any number of calls with one list the store holds exactly the listed peers stored at first or ever added with success |

## Left out

* IPv6 subnets: `ParseCIDR` of the model knows IPv4 networks only. IPv6 addresses occur as
  16-byte values outside every subnet.
* Text of addresses and networks: a printed address is its number and a printed network is
  its address and prefix length, because both printings are injective.
* Runs on one pool so long that its cursor could meet the end of the 16-byte address space
  (or, for a subnet of fewer than 32 addresses at 0.0.0.0, the end of the IPv4 space). The
  run theorems of `PoolTheorems` name that bound as `Horizon`.
* `GetPoolStats`, `ListPools`, `GetAllocationOwner`, `CleanupStaleAllocations` (which does
  nothing) and the `Is...Allocated` queries: reads that add only easy members.
* The registry of networks in the CNI provider and the sharing of one `AllocatedNetwork`
  object between it and the allocator: networks are values in the allocator's map.
* Published port lists, VXLAN identifiers, driver options and CNI files. Writing the files
  is one step that succeeds or fails.
* A service that publishes ports in the conservation theorem: the ingress overwrite forgets
  a VIP on the ingress network. It is part of the ledger theorem.
* SHA-256: a function parameter. The name of a TAP is an arbitrary digest of the task with
  the index.
* Kernel and process commands (`ip`, `bridge`, netlink, `dnsmasq`, iptables, Firecracker's
  socket): steps that succeed or fail.
* Addresses after the first of a network attachment, which the code never reads, netmasks,
  and first addresses that are not IP addresses in `TapTable`.
* The CNI cleanup of `CleanupNetwork`, bridge, NAT and DHCP setup.
* The rest of the generated init script around `shellEscape`; a command that the script puts
  into a second level of quotes is not lexed twice. Words are lexed but not interpreted, so
  reserved words, assignments and aliases are not told apart.
* Multi-byte characters: shell text is a sequence of characters, none of them NUL.
* The JSON of the state file: file contents are entries in some order, nothing, or a torn
  prefix that does not decode. Renaming is atomic.
* Sharing of one `VMState` object between the caller of `Add` and the map: entries are
  values, so later edits by the caller are not seen.
* Clock readings: a parameter of each call. `Reconcile` uses one reading for all its entries.
* `Wait`, the configuration calls of `Start`, metrics, and reuse of process identifiers.
  A `Start` is one step because it holds the manager's lock throughout; what it leaves
  behind on failure outside the tracked map is not modelled.
* Peers found over UDP, tickers and Consul. `AddPeer` outside `UpdatePeers` stores a peer
  without a forwarding entry, so the premise of `PeerSync.ForwardingKept` is about
  `UpdatePeers` alone.
* Removing forwarding entries of old peers, which the code does not do either.
* Locks: a method that holds one is a single step. Everything under `cmd/`, image pulling,
  health checks and configuration defaults.
