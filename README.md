# tricarboxylic: the mesh-membership control plane in Dafny

tricarboxylic is a small daemon that builds a WireGuard mesh. One node runs a
server interface. Other nodes attach by presenting an access code, and the
server hands each of them a host address drawn from its network block. This
project models the heart of that control plane:

- **The IPv4 address codec** (`AddrCodec`, `addrcodec.dfy`). It converts
  between dotted text and 32-bit words, using `bv32` words and Go's
  `strconv.Atoi`/`Itoa` and `strings.Split` modelled in `GoLib`
  (`golib.dfy`).
- **The address pool** (`AddressPool`, `pool.dfy`, and `AddressPoolFacts`,
  `poolfacts.dfy`).
  - `NewNetworkCIDR` derives the server's network block from a random word
    and fills the `map[uint32]bool` pool.
  - `NewDynamicIpUnderCIDR` reconciles the pool against the peers' allowed
    addresses and hands out the lowest free host number.
  - The quirks are kept as the code has them: the fill bound is twice the
    host space, the scan bound is `2 << hostBits`, the handed-out host is not
    marked taken, and the assigned CIDR is always `/24`.
- **The daemon's server handlers** (`Daemon`, `daemon.dfy`).
  - The package state is a `Daemon` class.
  - `SetPort` validates its input.
  - `ServerAttach` and `ServerDetach` check the access code, then that a
    server runs, then allocate, then change the peer table, then restart the
    tunnel. Each failure path says what changed.
- **The WireGuard backend** (`WireGuardBackend`, `wireguard.dfy`).
  - A `WireGuard` class holds the key pair, the `[Interface]` record, the peer
    list and the configuration store's two entries.
  - `addPeer`, `delPeer`, `newInterface`, `loadConfig`, `saveConfig`,
    `dumpConfig`, `newKeyPair` and `restartIface` are methods on it.
  - The rendered configuration text is proved equal to a section-by-section
    reference rendering.
- **The utilities** (`Utils`, `utils.dfy`).
  - `MakeText`'s template substitution is modelled over every order in which
    the Go map may be visited.
  - `InputAndCheck`'s defaulting and validation take the line read as a
    parameter.

Go's `uint32` arithmetic is `bv32`, and `uint32(n)` of a Go `int` is explicit
truncation (`AddrCodec.U32`, `AddressPool.Trunc32`). Go's 64-bit `int`
overflow in the scan bound is written out (`AddressPool.ScanBound`). Shifts
by 32 or more give 0, as in Go (`AddressPool.Shl`).

## Model

| member | source | states |
|---|---|---|
| AddrCodec.IpUInt32ToAddr | daemon/daemon.go:394-408 | the two loops (bytes into a four-byte array, then decimal fields joined by dots) produce exactly `AddrText(ip)` |
| AddrCodec.IpAddrToUInt32 | daemon/daemon.go:410-424 | the shift-and-OR loop over the first four dot fields yields exactly `ParseAddr(addr)`: an error on a field Atoi rejects, a panic when fewer than four fields are present, the packed word otherwise |
| AddrCodec.EmittedDotted | daemon/daemon.go:401-406 | after four rounds the text loop has produced the four decimal fields joined by dots |
| AddrCodec.ProgressShift | daemon/daemon.go:414-421 | one non-final round of the parse loop ORs the field's word in and shifts left by 8 |
| AddrCodec.ProgressLast | daemon/daemon.go:418-421 | the fourth round ORs the last field in without shifting |
| AddrCodec.ProgressDone | daemon/daemon.go:410-424 | when the loop ends after four rounds, its word is the one `ParseAddr` returns |
| AddrCodec.ParseAddrPacks | daemon/daemon.go:410-424 | when all four fields convert, the result packs their uint32 words most significant first |
| AddrCodec.AccumulatedPack | daemon/daemon.go:413-421 | four rounds of the accumulation equal `Pack` of the four field words |
| AddrCodec.AccumulatedShift | daemon/daemon.go:418-420 | each non-final round of the accumulation is OR, then shift by 8 |
| AddrCodec.PackChain | daemon/daemon.go:413-421 | the four steps of the loop starting from 0 compute `Pack(a, b, c, d)` |
| AddrCodec.ParseAddrStops | daemon/daemon.go:412-417 | an index past the fields panics; a field Atoi rejects returns the conversion error |
| AddrCodecFacts.AddrRoundTrip | daemon/daemon.go:394-424 | `IpAddrToUInt32(IpUInt32ToAddr(v)) == v`, with no error, for every 32-bit v |
| AddrCodecFacts.AddrTextFields | daemon/daemon.go:395-407 | the text of v has exactly four dot-separated fields; field k is the decimal text of byte k of v, most significant first |
| AddrCodecFacts.ParseAddrOutcome | daemon/daemon.go:410-424 | error iff one of the first (up to four) fields is not a 64-bit decimal integer; panic iff fewer than four fields, all integers; success iff the first four are integers |
| AddrCodecFacts.ParseAddrValue | daemon/daemon.go:414-421 | on success the word packs the four field values, each truncated to uint32 (values above 255 are OR-ed in, not rejected) |
| AddrCodecFacts.ExtraFieldsIgnored | daemon/daemon.go:412 | fields after the fourth never change the outcome |
| AddrCodecFacts.ParseDotted | daemon/daemon.go:410-424 | dotted text of four 64-bit ints parses to `Pack` of their uint32 truncations |
| AddrCodecFacts.OctetsPack | daemon/daemon.go:397-399 | packing the four bytes of v, most significant first, gives v back |
| AddrCodecFacts.SplitDotted | daemon/daemon.go:401-406 | splitting the produced text at '.' gives back the four decimal fields |
| AddrCodecFacts.FieldsAtoi | daemon/daemon.go:414 | Atoi accepts a field exactly when it is an optional sign and digits in the 64-bit range, and then returns its decimal value |
| AddrCodecFacts.ByteText | daemon/daemon.go:402 | `Itoa` of a byte is its decimal digits |
| AddrCodecFacts.ByteWord | daemon/daemon.go:418 | `uint32(int(b))` of a byte is the byte itself |
| AddrCodecFacts.AddrTextExample | daemon/daemon_test.go:8-18 | `IpUInt32ToAddr(3232235876) == "192.168.1.100"` |
| AddrCodecFacts.ParseAddrExample | daemon/daemon_test.go:20-33 | `IpAddrToUInt32("192.168.1.100") == 3232235876` |
| AddrCodecFacts.ByteOverflowExample | daemon/daemon.go:414-421 | `"0.0.0.256"` and `"0.0.1.0"` both parse to 256: an out-of-range field spills into the next byte |
| AddressPool.PrefixMasks | daemon/daemon.go:322-327 | the loop yields `LowBits(n)` and `Lead(n)`, which `LowBitsValue` and `LeadValue` show to be 2^n - 1 and 2^(n-1) for 1 <= n <= 32 |
| AddressPool.ServerWord | daemon/daemon.go:328-330 | the server word is `NetworkWord(r, n)`: for 1 <= n <= 32 its top and lowest bits are set (`ServerTopBit`), below 32 bits its host part is 1 (`ServerHostPart`), and for n = 0 or n > 32 it is 0.0.0.1 (`ServerAddrNoPrefix`) |
| AddressPool.FillPool | daemon/daemon.go:333-336 | the pool afterwards has key 1 false, keys 2 .. `uint32(2) << (32-n)` true, and every other key as before |
| AddressPool.FillBound | daemon/daemon.go:334 | the fill bound is twice the host space for 2 <= n <= 32 and 0 when the uint32 shift overflows |
| AddressPool.NewNetworkCIDR | daemon/daemon.go:308-339 | an unparsable prefix returns the error and leaves the pool alone; otherwise the result is the text of the server word above, then "/" and n (24 when no base CIDR parses), and the pool is filled as above |
| AddressPool.NetworkMaskOf | daemon/daemon.go:348-352 | the loop yields `NetMask(n)`, which `NetMaskValue` shows to be 2^32 - 2^(32-n), the top n bits, for 1 <= n <= 32 |
| AddressPool.ReconcilePeers | daemon/daemon.go:359-371 | the peer loop computes `Reconcile` over the converted peer addresses: stop on an unconvertible address, otherwise mark each in-network host number false |
| AddressPool.ClaimHost | daemon/daemon.go:364-369 | one round marks `ip & hostMask` false when ip has the network bits, and changes nothing otherwise |
| AddressPool.ReconcileHead | daemon/daemon.go:361-369 | the first address decides: conversion error, panic, or claim and continue with the rest |
| AddressPool.ClaimOutside | daemon/daemon.go:365 | a peer outside the network leaves the pool unchanged |
| AddressPool.ClaimInside | daemon/daemon.go:365-367 | a peer inside the network sets its host number's key to false |
| AddressPool.ScanPool | daemon/daemon.go:373-379 | the scan returns uint32 of the first i from 2 below the bound whose entry reads true, or 1 when there is none |
| AddressPool.AssignHost | daemon/daemon.go:380-391 | a scan result of 1 (nothing found, or a host number that truncates to 1) fails with "failed to generate config"; otherwise the result is the text of `(network & mask) \| host` |
| AddressPool.AllocateInNetwork | daemon/daemon.go:355-391 | reconcile, scan and assign together compute `AllocateIn` and leave the reconciled pool |
| AddressPool.AllocateSplit | daemon/daemon.go:342-347 | the allocation reads the network word and the prefix length from the two halves of the interface CIDR |
| AddressPool.NewDynamicIpUnderCIDR | daemon/daemon.go:341-392 | result and pool are exactly `Allocate(cidr, peers, pool)` |
| AddressPool.PeerAddrs | daemon/daemon.go:362-363 | one converted address per peer |
| AddressPoolFacts.LowBitsValue | daemon/daemon.go:322-327 | for 1 <= n <= 32 the mask the loop builds is 2^n - 1, the low n bits |
| AddressPoolFacts.LeadValue | daemon/daemon.go:323-327 | for 1 <= n <= 32 the leading bit the loop builds is 2^(n-1) |
| AddressPoolFacts.LowBitsLead | daemon/daemon.go:322-327 | the mask is the leading bit together with every bit below it |
| AddressPoolFacts.NetworkNumberBits | daemon/daemon.go:328 | the network number keeps its leading bit and has no bit above the low n |
| AddressPoolFacts.ShlValue | daemon/daemon.go:329 | a uint32 shift by c multiplies by 2^c while the product stays below 2^32 |
| AddressPoolFacts.ShlWide | daemon/daemon.go:329 | a uint32 shift by 32 or more yields 0, as in Go |
| AddressPoolFacts.NetMaskValue | daemon/daemon.go:348-352 | for 1 <= n <= 32 the network mask is 2^32 - 2^(32-n), the top n bits of the word |
| AddressPoolFacts.NetMask24 | daemon/daemon.go:348-352 | the mask of the default /24 network is 255.255.255.0 |
| AddressPoolFacts.ServerTopBit | daemon/daemon.go:328-330 | for 1 <= n <= 32 the server address has its top bit set, where the leading bit of the network number lands, and its lowest bit set |
| AddressPoolFacts.ServerHostPart | daemon/daemon.go:328-330 | for 1 <= n <= 31 the host part of the server address under the n-bit mask is exactly 1 |
| AddressPoolFacts.ServerAddrNoPrefix | daemon/daemon.go:328-330 | for n = 0, or n > 32 so that 32 - n wraps in uint32, the shift clears the network number and the server address is 0.0.0.1 |
| AddressPoolFacts.FirstFreeSpec | daemon/daemon.go:373-379 | the scan's result is the lowest i in range whose entry reads true; it finds none iff no entry in range reads true |
| AddressPoolFacts.FirstFreeAt | daemon/daemon.go:373-379 | conversely, the first available i in range is what the scan finds |
| AddressPoolFacts.ReconcileSpec | daemon/daemon.go:359-371 | reconciliation completes iff every peer address converts; then a key reads false if an in-network peer holds that host number, and is unchanged otherwise |
| AddressPoolFacts.ClaimGet | daemon/daemon.go:364-369 | after one round, a key reads false exactly for the peer's in-network host number; every other key is unchanged |
| AddressPoolFacts.ClaimedCons | daemon/daemon.go:361 | a host number is claimed by the list iff the first peer or the rest claims it |
| AddressPoolFacts.ReconcileTwice | daemon/daemon.go:359-371 | reconciling a second time against the same peers changes nothing |
| AddressPoolFacts.AllocateInSpec | daemon/daemon.go:355-391 | the pool left is the reconciled one; an address is assigned iff all peers convert and the scan finds a host other than 1; that host is the lowest free i in [2, bound), OR-ed into the network bits |
| AddressPoolFacts.HostAddrParts | daemon/daemon.go:388 | an assigned address has the interface's network bits and, when the host fits, the host number as its host bits |
| AddressPoolFacts.AllocationAvoidsPeers | daemon/daemon.go:355-391 | the assigned address is no peer's address, when the host number fits in the host bits |
| AddressPoolFacts.NoPeerAtFreeHost | daemon/daemon.go:364-367 | no peer sits at a host number that still reads true after reconciliation |
| AddressPoolFacts.RepeatAllocation | daemon/daemon.go:380-391 | the handed-out host is not marked, so a second call with the same peers hands out the same address again |
| AddressPoolFacts.FreshPoolFirstHost | daemon/daemon_test.go:35-42 | on a pool `NewNetworkCIDR` has just filled for n bits (2 <= n <= 31), the scan for n bits picks host 2 |
| AddressPoolFacts.DefaultBounds | daemon/daemon.go:334 | for the default /24 both the fill bound and the scan bound are 512, twice the host space |
| AddressPoolFacts.BleedExample | daemon/daemon.go:373-391 | in 10.0.1.0/24, under the /24 mask `NetMask(24)` and the /24 scan bound, with hosts 2 .. 255 gone and a peer at 10.0.1.0, the scan picks 256 and hands out 10.0.1.0, the peer's own address |
| AddressPoolFacts.ScanPastTaken | daemon/daemon.go:374-379 | with keys 2 .. 255 unavailable and 256 true, the /24 scan picks 256 |
| Daemon.Daemon.constructor | daemon/daemon.go:48-60 | empty pool, no backend, settings read from the store, and a generated access code when none is stored |
| Daemon.Setting | utils/utils.go:39-49 | a stored key reads its value; a missing key reads "" |
| Daemon.PortAcceptedSpec | daemon/daemon.go:95-106 | a port is accepted iff it is an optional sign and digits whose value lies in [10000, 20000] |
| Daemon.Daemon.SetPort | daemon/daemon.go:95-106 | a parse failure returns "failed to parse the given port" and an error; a value out of range returns the range message; only an accepted port updates `tricarbPort` and the store; nothing else changes |
| Daemon.DumpConfigAndRestart | daemon/daemon.go:427-445 | renders the backend's text; a failed write stops before the tunnel; down runs only when the tunnel runs; up runs last and only if down succeeded; a failure returns the message of the first step that failed (`RestartError`) |
| Daemon.AttachedPeer | daemon/daemon.go:168-171 | the peer record handed to addPeer decodes to the key with `ip + "/32"` and no endpoint |
| Daemon.AttachPeer | daemon/daemon.go:168-188 | the peer is appended as `ip/32` and saved; a successful restart replies with `ip + "/24"`, the server's public key and port; a failed one replies code 1 with the failing step's message and empty fields, and keeps the peer |
| Daemon.Daemon.ServerAttach | daemon/daemon.go:159-189 | in order: a wrong code returns "invalid access code" touching nothing; no backend returns "no server was started"; the pool takes the allocation's result; a failed allocation adds no peer; otherwise as AttachPeer |
| Daemon.Daemon.ServerDetach | daemon/daemon.go:286-306 | a wrong code and a missing backend fail as in ServerAttach; otherwise the first peer whose key contains the argument is removed and saved; a successful restart replies with the server's public key; a failed one replies code 1 with the failing step's message and leaves the peer removed |
| WireGuardBackend.PortValidatorSpec | backend/wireguard.go:66-69 | portValidator accepts a string iff it is an optional sign and digits within the 64-bit range, which is what `strconv.Atoi` parses |
| WireGuardBackend.PeerMaps | backend/wireguard.go:420-430 | one saved map per peer, in list order |
| WireGuardBackend.SavedPeerKeys | backend/wireguard.go:420-430 | each saved peer map always holds PublicKey and AllowedIPs, and holds EndPointIp and EndPointPort iff the endpoint IP is non-empty |
| WireGuardBackend.DecodePeers | backend/wireguard.go:400-410 | one loaded peer per stored map |
| WireGuardBackend.IfaceRoundTrip | backend/wireguard.go:400-434 | loading the saved interface map gives the interface record back |
| WireGuardBackend.PeerRoundTrip | backend/wireguard.go:400-434 | a saved peer loads back unchanged iff it is well formed (no endpoint port without an endpoint IP) |
| WireGuardBackend.PeersRoundTrip | backend/wireguard.go:400-434 | a list of well-formed peers survives save and load |
| WireGuardBackend.NewPeerWellFormed | backend/wireguard.go:362-370 | the peer addPeer builds is well formed, so it survives a save and a load |
| WireGuardBackend.RemoveFirstAt | backend/wireguard.go:384-391 | when peer i is the first whose key contains hash, exactly it is removed and the others keep their order |
| WireGuardBackend.RemoveFirstNone | backend/wireguard.go:384-391 | when no key contains hash the list is unchanged |
| WireGuardBackend.RemoveFirstEmptyHash | backend/wireguard.go:385 | an empty hash removes the first peer |
| WireGuardBackend.RemoveFirstWellFormed | backend/wireguard.go:384-391 | removal keeps every peer well formed |
| WireGuardBackend.DumpTextShape | backend/wireguard.go:439-457 | the text starts with "[Interface]\n", then the ListenPort line when the port is non-empty, the Address line otherwise |
| WireGuardBackend.PeerSectionShape | backend/wireguard.go:460-481 | every peer section starts with "[Peer]\n" and its PublicKey line and ends with a newline |
| WireGuardBackend.ServerInterfaceRendered | backend/wireguard.go:48-49 | MakeText on the server-interface template, in any map order, gives the ListenPort line with the trimmed port |
| WireGuardBackend.ClientInterfaceRendered | backend/wireguard.go:53-58 | MakeText on the client-interface template gives the Address, PrivateKey, PostUp and PostDown lines with the trimmed values and RWTH_ETH substituted |
| WireGuardBackend.ServerPeerRendered | backend/wireguard.go:50-52 | MakeText on the server-peer template gives the PublicKey and AllowedIPs lines |
| WireGuardBackend.ClientPeerRendered | backend/wireguard.go:59-61 | MakeText on the client-peer template gives the Endpoint line and `PersistentKeepalive = 10` |
| WireGuardBackend.TemplateOf | utils/utils.go:116-125 | a template whose placeholders are distinct key names, and whose values hold none, can be filled in any order |
| WireGuardBackend.FourKeysTemplate | backend/wireguard.go:439-481 | the four-key replacers of dumpConfig are told apart, so their templates fill in any order |
| WireGuardBackend.InterfaceConfig | backend/wireguard.go:439-457 | the interface part of dumpConfig is "[Interface]\n", the ListenPort line only when the port is non-empty, then the Address/PrivateKey/PostUp/PostDown block |
| WireGuardBackend.PeerConfig | backend/wireguard.go:460-481 | one peer part is "[Peer]\n", the key and allowed IPs lines, the endpoint lines only when the endpoint IP is non-empty, then a blank line |
| WireGuardBackend.SectionsStep | backend/wireguard.go:460-481 | each round of the peer loop appends the next peer's section in list order |
| WireGuardBackend.WireGuard.constructor | backend/wireguard.go:37-41 | a backend with an empty key pair, interface and peer list over the given store |
| WireGuardBackend.WireGuard.LoadConfig | backend/wireguard.go:400-410 | the records become the decoded store entries; a synced backend is unchanged |
| WireGuardBackend.WireGuard.SaveConfig | backend/wireguard.go:412-434 | the store gets the interface map and one map per peer in order; the records are unchanged; the backend is then synced when all peers are well formed |
| WireGuardBackend.WireGuard.NewKeyPair | backend/wireguard.go:315-331 | a genkey failure keeps the old pair; a pubkey failure keeps the new private key and the command's output; success sets both keys |
| WireGuardBackend.WireGuard.NewInterface | backend/wireguard.go:333-355 | on success the interface is replaced wholesale by port, address and local NIC from the map plus the trimmed private key, and saved; the peers are those loaded; a key failure returns the generator's message and saves nothing, leaving the key pair as `newKeyPair` left it (unchanged when genkey fails, the private key with pubkey's output when pubkey fails) |
| WireGuardBackend.WireGuard.AddPeer | backend/wireguard.go:357-377 | exactly one peer is appended after the loaded ones; its endpoint is set only when EndPointIp is non-empty; the interface is unchanged and the result saved |
| WireGuardBackend.WireGuard.DelPeer | backend/wireguard.go:379-398 | the first peer whose key contains hash is removed, the rest keep their order, and the result is saved |
| WireGuardBackend.WireGuard.DumpConfig | backend/wireguard.go:436-488 | when no value holds a placeholder, the text is the interface section followed by one peer section per peer in list order |
| WireGuardBackend.WireGuard.RestartIface | backend/wireguard.go:308-313 | down runs first; up runs after it iff down succeeded; the error is down's, otherwise up's |
| Utils.MakeText | utils/utils.go:116-125 | never fails; the result is the script with every key replaced by its trimmed value, one key after another, in some order that visits every key once |
| Utils.MakeTextSingle | utils/utils.go:119-122 | with one key, every non-overlapping occurrence of it is replaced by the trimmed value |
| Utils.MakeTextNoKey | utils/utils.go:117-124 | when no key occurs in the script, the script comes back unchanged |
| Utils.FillInOrder | utils/utils.go:120-122 | on a template, substituting keys one after another fills exactly their placeholders |
| Utils.MakeTextTemplate | utils/utils.go:116-125 | on a template, every visiting order of the map gives the same text, with all placeholders filled |
| Utils.FillStep | utils/utils.go:121 | one round of the loop fills the placeholders of one key and leaves the rest of the template alone |
| Utils.InputAndCheck | utils/utils.go:89-106 | every failing answer carries an empty value |
| Utils.InputDefaults | utils/utils.go:99-101 | an empty input takes a non-empty default, which is then validated |
| Utils.InputValidated | utils/utils.go:102-105 | a non-empty line read is returned unchanged iff the validator accepts it; otherwise "" with "validation failed" |
| Utils.InputReadError | utils/utils.go:92-97 | a read error is returned with an empty value before the default or the validator are looked at |
| Utils.PromptIgnoresDefault | utils/utils.go:92-101 | with a prompt, every read `fmt.Scanln` can deliver (an error, or a non-empty word without white space) gives the same answer whatever the default; an accepted word is returned as read |
| Utils.InputEmptyPrompt | utils/utils.go:92-105 | with an empty prompt nothing is read: the answer is the default, or "", subject to the validator |
| GoLib.AtoiSpec | daemon/daemon.go:96 | `strconv.Atoi` succeeds iff the text is an optional sign and decimal digits whose value lies in the 64-bit range, and then returns that value |
| GoLib.AtoiItoa | daemon/daemon.go:402 | Atoi inverts Itoa on 64-bit values |
| GoLib.ScanUintSpec | daemon/daemon.go:414 | the unsigned digit scan succeeds iff all characters are digits and the value fits in 64 bits |
| GoLib.NatToDecimalValue | daemon/daemon.go:402 | Itoa's digits denote the number |
| GoLib.ItoaNoSeparator | daemon/daemon.go:402 | Itoa's text holds no '.' or '/' |
| GoLib.Split | daemon/daemon.go:411 | `strings.Split` always yields at least one field |
| GoLib.SplitNoSeparator | daemon/daemon.go:411 | a text without the separator splits into itself |
| GoLib.SplitAtSeparator | daemon/daemon.go:411 | the text before the first separator is the first field |
| GoLib.SplitJoin | daemon/daemon.go:411 | splitting a join at one separator splits each side |
| GoLib.ContainsEmpty | backend/wireguard.go:385 | every string contains "" |
| GoLib.MissingCharNotContained | backend/wireguard.go:385 | a string lacking a character of sub does not contain sub |
| GoLib.ReplaceAbsent | utils/utils.go:121 | replacing an absent pattern changes nothing |
| GoLib.ReplaceLeftmost | utils/utils.go:121 | the leftmost occurrence is replaced and the scan resumes after it |
| GoLib.ReplaceConcat | utils/utils.go:121 | when no occurrence straddles the seam, replacing in a concatenation replaces in each part |
| GoLib.TrimSpaceSpec | utils/utils.go:121 | `strings.TrimSpace` removes exactly the leading and trailing white space |
| GoLib.TrimSpaceKeepsAbsence | utils/utils.go:121 | trimming cannot create an occurrence of a pattern |

## Left out

- AddressPoolFacts.AllocationAvoidsPeers: proved only when the host number the scan finds fits in the host bits. The source's scan bound is `2 << hostBits`, twice the host space, so a host number at or above `2^hostBits` spills into the network bits. It can then hand out an existing peer's address. `AddressPoolFacts.BleedExample` exhibits this, and the model keeps the source's behaviour.
- Daemon.DumpConfigAndRestart and WireGuardBackend.WireGuard.DumpConfig: the text is stated only when no replacement value contains a placeholder name. Otherwise the Go map iteration order in `MakeText` decides the result, and the model leaves that order open (`Utils.MakeText` holds for some visiting order).
- The file writes (`ioutil.WriteFile` in `dumpConfig` and `dumpConfigAndRestartVirtualTap`) are not performed. The text that would be written is the result, and a write failure is an input of the restart step.
- Decode errors from the configuration store (viper and mapstructure) are not modelled. Loading always succeeds, so the store-error paths of `addPeer`, `delPeer` and `newInterface` cannot be taken. Neither can the daemon's "failed to attach to client node" and "failed to detach client node" replies. Rendering the configuration cannot fail either, so the "failed to generate config" error of `dumpConfigAndRestartVirtualTap` (daemon/daemon.go:428-431) is never returned.
- Utils.InputDefaults: its `Line("")` case is not something `fmt.Scanln` delivers, since an empty line is a read error. With a prompt the default is never used (`Utils.PromptIgnoresDefault`), and every call in backend/wireguard.go:99-241 passes a prompt. `ReadLine` keeps every string so that `InputAndCheck` is stated on all values; how Scanln splits a line into words is not modelled.
- WireGuardBackend.DecodePeers builds each loaded peer afresh. `mapstructure.Decode` (backend/wireguard.go:406) instead decodes into the existing elements of the peer slice. The two differ only for a stored peer that has an `EndPointPort` but no `EndPointIp`, which `addPeer` never writes.
- The store itself is two in-memory entries on the backend (`wg.iface`, `wg.peers`), plus a string map for the daemon's own settings.
- External programs are inputs: `wg genkey` and `wg pubkey` become a `KeyGen` outcome, `wg-quick down/up` become error inputs, and the `ifconfig wg` probe becomes the tunnel's running flag.
- `math/rand` becomes the word `r` passed to `NewNetworkCIDR`.
- `net.ParseCIDR` becomes its canonical text, or None when it fails.
- The access code generator (`utils.GenerateAccessCode`) becomes a parameter of the daemon constructor.
- `path.Join` of `$HOME` becomes the `confPath` parameter.
- Not modelled: `ServerStart`, `ServerStop`, `SetCIDR`, `SetNetIC`, `SetMode`, `Status` and `Version`. The same goes for the client handlers `ClientAttach` and `ClientDetach` (gRPC dialling, timeouts, `log.Fatalf`), `Install`, `Uninstall` and `preflight`, the interactive wizards (`Server`, `AddNode`, `DelNode`, `Client`, `Connect`, `Disconnect`), and the CLI wiring.
- Concurrent handlers over the shared package state: every call is treated as sequential.
- Printing and logging are left out.
- The methods `daemon.go` calls on its backend (`AddPeer`, `DelPeer`, `Config`, `CIDR`, `Peer`, `PublicKey`, `Port`) are not declared by the `VpnBackend` interface in backend/interface.go:7-25. The daemon is modelled against the WireGuard backend's own `addPeer`, `delPeer`, `dumpConfig` and records instead.
- A Go runtime panic (an index out of range in `NewDynamicIpUnderCIDR` or `IpAddrToUInt32`) is an explicit outcome (`AllocPanic`, `AddrPanic`, `Panicked`), not a crash of the process.
