/** The daemon's address pool: NewNetworkCIDR derives the server's network
    block and fills the pool of host numbers; NewDynamicIpUnderCIDR
    reconciles the pool against the peers already configured and hands out
    the lowest free host.

    The pool is Go's map[uint32]bool; its keys are kept as the numbers
    0 .. 2^32-1 and a key absent from the map reads as false. Addresses and
    masks are uint32 words (bv32); bit counts and loop counters, which never
    wrap in the source, are numbers. */
module AddressPool {
  import opened GoLib
  import opened AddrCodec
  import opened WireGuardBackend

  type Pool = map<int, bool>

  /** pool[k] in Go: false for a missing key. */
  predicate Lookup(pool: Pool, k: int)
  {
    k in pool && pool[k]
  }

  /** The entry stored under k, if any. */
  function Get(pool: Pool, k: int): Option<bool>
  {
    if k in pool then Some(pool[k]) else None
  }

  /** A uint32 word used as a pool key. */
  function Key(w: bv32): int
  {
    w as int
  }

  /** uint32(v) for a Go int v, as a number. */
  function Trunc32(v: int): nat
  {
    v % 0x1_0000_0000
  }

  function Pow2(k: nat): nat
  {
    if k == 0 then 1 else 2 * Pow2(k - 1)
  }

  /** Go's x << c for a uint32 x and an unsigned count c: one doubling per
      step, so every count of 32 or more yields 0. */
  function Shl(x: bv32, c: nat): bv32
  {
    if c == 0 then x else Shl(x, c - 1) << 1
  }

  /** The mask the loop `mask = mask << 1 | 0x1` builds from 1 while its
      counter runs from 1 up to k: the low k bits (one bit when k is 0). */
  function LowBits(k: nat): bv32
  {
    if k <= 1 then 1 else (LowBits(k - 1) << 1) | 1
  }

  /** The leading bit of a k-bit network number: bit k-1 (bit 0 when k is 0). */
  function Lead(k: nat): bv32
  {
    if k == 0 then 1 else Shl(1, k - 1)
  }

  /** One more round of the mask-building loop. */
  lemma LowBitsStep(i: nat)
    requires i >= 1
    ensures LowBits(i + 1) == (LowBits(i) << 1) | 1
  {
  }

  /** One more round of the leading-bit loop. */
  lemma LeadStep(i: nat)
    requires i >= 1
    ensures Lead(i + 1) == Lead(i) << 1
  {
  }

  /** 32 - networkBits computed in uint32. */
  function HostBits(n: nat): nat
  {
    (32 - n) % 0x1_0000_0000
  }

  /** The network mask of NewDynamicIpUnderCIDR: the low-bits mask shifted
      up by the host bits. */
  function NetMask(n: nat): bv32
  {
    Shl(LowBits(n), HostBits(n))
  }

  // ---------------------------------------------------------------------
  // NewNetworkCIDR

  /** The network number NewNetworkCIDR draws from the random word r for
      n network bits: the low n bits of r with bit n-1 forced on. */
  function NetworkNumber(r: bv32, n: nat): bv32
  {
    (r & LowBits(n)) | Lead(n)
  }

  /** A network number x moved to the top of the word (32 - n computed in
      uint32), with host number 1 for the server. */
  function ServerAddr(x: bv32, n: nat): bv32
  {
    Shl(x, HostBits(n)) | 1
  }

  /** The server address NewNetworkCIDR derives from r for n network bits. */
  function NetworkWord(r: bv32, n: nat): bv32
  {
    ServerAddr(NetworkNumber(r, n), n)
  }

  function NetworkText(r: bv32, n: nat): string
  {
    AddrText(NetworkWord(r, n)) + "/" + Itoa(n)
  }

  /** The network bits NewNetworkCIDR uses. The argument is the canonical
      text net.ParseCIDR gives for the base CIDR, or None when it does not
      parse: then 24; otherwise the text after '/' converted by
      strconv.Atoi and truncated to uint32, or None when Atoi fails. */
  function PrefixBits(canon: Option<string>): Option<nat>
    requires canon.Some? ==> |Split(canon.value, '/')| >= 2
  {
    match canon
    case None => Some(24)
    case Some(text) =>
      var bits := Atoi(Split(text, '/')[1]);
      if bits.Parsed? then Some(Trunc32(bits.value)) else None
  }

  /** uint32(2) << (32 - n): twice the host space, and 0 once the shift
      reaches 32 bits (n of 0 or 1). */
  function FillBound(n: nat): (b: nat)
    requires n < 0x1_0000_0000
    ensures 2 <= n <= 32 ==> b == 2 * Pow2(32 - n)
    ensures n < 2 || 32 < n ==> b == 0
  {
    var c := HostBits(n);
    if c >= 31 then 0 else 2 * Pow2(c)
  }

  /** pool' is pool with key 1 set to false and keys 2 .. b set to true. */
  ghost predicate Filled(pool: Pool, pool': Pool, b: int)
  {
    forall k :: Get(pool', k) == if k == 1 then Some(false) else if 2 <= k <= b then Some(true) else Get(pool, k)
  }

  /** The mask-building loop of NewNetworkCIDR: the low-bits mask and the
      leading bit of an n-bit network number. */
  method PrefixMasks(networkBits: nat) returns (mask: bv32, leading: bv32)
    ensures mask == LowBits(networkBits) && leading == Lead(networkBits)
  {
    mask := 1;
    leading := 1;
    var i := 1;
    while i < networkBits
      invariant 1 <= i && (i <= networkBits || i == 1)
      invariant mask == LowBits(i) && leading == Lead(i)
    {
      LowBitsStep(i);
      LeadStep(i);
      mask := (mask << 1) | 1;
      leading := leading << 1;
      i := i + 1;
    }
  }

  /** The server address NewNetworkCIDR derives from the random word r. */
  method ServerWord(r: bv32, networkBits: nat) returns (fullIp: bv32)
    ensures fullIp == NetworkWord(r, networkBits)
  {
    var mask, leading := PrefixMasks(networkBits);
    var networkIp := (r & mask) | leading;
    assert networkIp == NetworkNumber(r, networkBits);
    // fullIp := networkIp << (32 - networkBits); fullIp = fullIp | 0x1
    fullIp := ServerAddr(networkIp, networkBits);
  }

  /** The fill loop of NewNetworkCIDR: key 1 becomes false and every key
      from 2 up to uint32(2) << (32 - n) becomes true. */
  method FillPool(pool: Pool, networkBits: nat) returns (pool': Pool)
    requires networkBits < 0x1_0000_0000
    ensures Filled(pool, pool', FillBound(networkBits))
  {
    pool' := pool[1 := false];
    var bound: int := FillBound(networkBits);
    var k: int := 2;
    while k <= bound
      invariant 2 <= k && (k <= bound + 1 || k == 2)
      invariant forall j :: Get(pool', j) == if j == 1 then Some(false) else if 2 <= j < k then Some(true) else Get(pool, j)
      decreases bound + 1 - k
    {
      ghost var before := pool';
      pool' := pool'[k := true];
      forall j
        ensures Get(pool', j) == if j == 1 then Some(false) else if 2 <= j <= k then Some(true) else Get(pool, j)
      {
        if j != k {
          assert Get(pool', j) == Get(before, j);
        }
      }
      k := k + 1;
    }
  }

  /** NewNetworkCIDR(baseCIDR, &pool) with the random word r. On an Atoi
      failure it returns the error (None) and leaves the pool alone. */
  method NewNetworkCIDR(canon: Option<string>, r: bv32, pool: Pool) returns (cidr: Option<string>, pool': Pool)
    requires canon.Some? ==> |Split(canon.value, '/')| >= 2
    ensures PrefixBits(canon).None? ==> cidr == None && pool' == pool
    ensures PrefixBits(canon).Some? ==>
      cidr == Some(NetworkText(r, PrefixBits(canon).value)) && Filled(pool, pool', FillBound(PrefixBits(canon).value))
  {
    var networkBits: nat;
    match canon {
      case None =>
        networkBits := 24;
      case Some(text) =>
        var spNet := Split(text, '/');
        var spNetBits := Atoi(spNet[1]);
        if !spNetBits.Parsed? {
          return None, pool;
        }
        networkBits := Trunc32(spNetBits.value);
    }
    assert PrefixBits(canon) == Some(networkBits);
    var fullIp := ServerWord(r, networkBits);
    var addr := IpUInt32ToAddr(fullIp);
    cidr := Some(addr + "/" + Itoa(networkBits));
    pool' := FillPool(pool, networkBits);
  }

  // ---------------------------------------------------------------------
  // NewDynamicIpUnderCIDR

  /** Outcome of NewDynamicIpUnderCIDR: the assigned address, an error, or
      a Go panic (a CIDR text without '/', an address with fewer than four
      fields). */
  datatype Alloc = Assigned(ip: string) | AllocFailed | AllocPanic

  datatype Status = Done | BadAddr | Crash

  datatype Reconciled = Reconciled(pool: Pool, status: Status)

  datatype Allocation = Allocation(outcome: Alloc, pool: Pool)

  /** The address part of a peer's AllowedIps. */
  function PeerAddr(p: Peer): string
  {
    Split(p.allowedIps, '/')[0]
  }

  /** One round of the reconciliation loop: a peer address ip with the
      network bits nums under mask takes its host number out of the pool;
      any other address leaves the pool alone. */
  function Claim(pool: Pool, ip: bv32, mask: bv32, nums: bv32): Pool
  {
    if ip & mask != nums then pool else pool[Key(ip & !mask) := false]
  }

  /** What IpAddrToUInt32 makes of each peer's AllowedIps address, in
      peer order. */
  function PeerAddrs(peers: seq<Peer>): (r: seq<AddrParse>)
    ensures |r| == |peers|
  {
    seq(|peers|, i requires 0 <= i < |peers| => ParseAddr(PeerAddr(peers[i])))
  }

  /** The reconciliation loop over the converted peer addresses: every
      address claims its host number; the first address that does not
      convert stops the loop with the pool as far as it got. */
  function Reconcile(pool: Pool, addrs: seq<AddrParse>, mask: bv32, nums: bv32): Reconciled
    decreases |addrs|
  {
    if addrs == [] then Reconciled(pool, Done)
    else
      match addrs[0]
      case AddrInvalid => Reconciled(pool, BadAddr)
      case AddrPanic => Reconciled(pool, Crash)
      case AddrOk(ip) => Reconcile(Claim(pool, ip, mask, nums), addrs[1..], mask, nums)
  }

  /** 2 << h in Go's 64-bit int: it wraps to the minimum at h = 62 and is 0
      from h = 63 on. */
  function ScanBound(h: nat): int
  {
    if h <= 61 then Pow2(h + 1) else if h == 62 then MinInt64 else 0
  }

  /** The entry under key uint32(i) reads true. */
  predicate Available(pool: Pool, i: int)
  {
    Lookup(pool, Key(U32(i)))
  }

  /** The scan loop: the first i in [lo, hi) whose key uint32(i) is true. */
  function FirstFree(pool: Pool, lo: int, hi: int): Option<int>
    decreases hi - lo
  {
    if lo >= hi then None
    else if Available(pool, lo) then Some(lo)
    else FirstFree(pool, lo + 1, hi)
  }

  /** What the scan loop leaves in availableIp: uint32 of the first i from
      2 below the bound whose entry is true, or 1 when there is none. */
  function Choose(pool: Pool, bound: int): bv32
  {
    match FirstFree(pool, 2, bound)
    case Some(i) => U32(i)
    case None => 1
  }

  /** assignedIp: the network bits of the interface address with the
      chosen host number OR-ed in. */
  function HostAddr(network: bv32, mask: bv32, host: bv32): bv32
  {
    (network & mask) | host
  }

  /** The outcome for the scan result host: an error when the scan found
      nothing (host still 1), otherwise the assigned address. */
  function Assignment(network: bv32, mask: bv32, host: bv32): Alloc
  {
    if host == 1 then AllocFailed else Assigned(AddrText(HostAddr(network, mask, host)))
  }

  /** The part of NewDynamicIpUnderCIDR after the interface address has
      converted to network: reconcile, scan, assign. */
  function AllocateIn(network: bv32, mask: bv32, bound: int, addrs: seq<AddrParse>, pool: Pool): Allocation
  {
    var rec := Reconcile(pool, addrs, mask, network & mask);
    match rec.status
    case BadAddr => Allocation(AllocFailed, rec.pool)
    case Crash => Allocation(AllocPanic, rec.pool)
    case Done => Allocation(Assignment(network, mask, Choose(rec.pool, bound)), rec.pool)
  }

  /** The network bits NewDynamicIpUnderCIDR reads from the interface
      address: Atoi's value (0 on failure, the error being ignored)
      truncated to uint32. */
  function CidrBits(bitsText: string): nat
  {
    Trunc32(Atoi(bitsText).Value())
  }

  /** NewDynamicIpUnderCIDR(be, &pool) for the backend's interface address
      cidr and peer list peers: the result and the pool it leaves. */
  function Allocate(cidr: string, peers: seq<Peer>, pool: Pool): Allocation
  {
    var f := Split(cidr, '/');
    if |f| < 2 then Allocation(AllocPanic, pool)
    else
      match ParseAddr(f[0])
      case AddrInvalid => Allocation(AllocFailed, pool)
      case AddrPanic => Allocation(AllocPanic, pool)
      case AddrOk(network) =>
        var n := CidrBits(f[1]);
        AllocateIn(network, NetMask(n), ScanBound(HostBits(n)), PeerAddrs(peers), pool)
  }

  /** The loop of NewDynamicIpUnderCIDR that builds the network mask. */
  method NetworkMaskOf(networkBits: nat) returns (networkMask: bv32)
    ensures networkMask == NetMask(networkBits)
  {
    networkMask := 1;
    var i := 1;
    while i < networkBits
      invariant 1 <= i && (i <= networkBits || i == 1)
      invariant networkMask == LowBits(i)
    {
      LowBitsStep(i);
      networkMask := (networkMask << 1) | 1;
      i := i + 1;
    }
    assert networkMask == LowBits(networkBits);
    networkMask := Shl(networkMask, HostBits(networkBits));
  }

  /** The loop of NewDynamicIpUnderCIDR over the peers: it marks the host
      number of every peer inside the network as taken, and stops at the
      first address that does not convert. */
  method ReconcilePeers(pool: Pool, peers: seq<Peer>, networkMask: bv32, networkNums: bv32) returns (rec: Reconciled)
    ensures rec == Reconcile(pool, PeerAddrs(peers), networkMask, networkNums)
  {
    ghost var addrs := PeerAddrs(peers);
    var rstHostMask := !networkMask;
    var current := pool;
    var j := 0;
    while j < |peers|
      invariant 0 <= j <= |peers|
      invariant Reconcile(current, addrs[j..], networkMask, networkNums) == Reconcile(pool, addrs, networkMask, networkNums)
    {
      var ipAddr := Split(peers[j].allowedIps, '/')[0];
      var ip := IpAddrToUInt32(ipAddr);
      ghost var rest := addrs[j..];
      assert rest[0] == ip;
      ReconcileHead(current, rest, networkMask, networkNums);
      if ip == AddrInvalid {
        return Reconciled(current, BadAddr);
      } else if ip == AddrPanic {
        return Reconciled(current, Crash);
      }
      assert rest[1..] == addrs[j + 1..];
      current := ClaimHost(current, ip.value, networkMask, rstHostMask, networkNums);
      j := j + 1;
    }
    return Reconciled(current, Done);
  }

  /** The body of the peer loop once the address has converted: a peer
      outside the network is skipped, otherwise its host number is marked
      as taken. */
  method ClaimHost(pool: Pool, ip: bv32, networkMask: bv32, rstHostMask: bv32, networkNums: bv32) returns (pool': Pool)
    requires rstHostMask == !networkMask
    ensures pool' == Claim(pool, ip, networkMask, networkNums)
  {
    if (ip & networkMask) != networkNums {
      ClaimOutside(pool, ip, networkMask, networkNums);
      return pool;
    }
    ClaimInside(pool, ip, networkMask, networkNums);
    HostKey(ip, networkMask, rstHostMask);
    pool' := pool[Key(ip & rstHostMask) := false];
  }

  lemma ClaimOutside(pool: Pool, ip: bv32, mask: bv32, nums: bv32)
    requires ip & mask != nums
    ensures Claim(pool, ip, mask, nums) == pool
  {
  }

  lemma ClaimInside(pool: Pool, ip: bv32, mask: bv32, nums: bv32)
    requires ip & mask == nums
    ensures Claim(pool, ip, mask, nums) == pool[Key(ip & !mask) := false]
  {
  }

  lemma HostKey(ip: bv32, mask: bv32, hostMask: bv32)
    requires hostMask == !mask
    ensures Key(ip & hostMask) == Key(ip & !mask)
  {
  }

  /** One round of Reconcile: the first address decides between the two
      stops and the claim. */
  lemma ReconcileHead(pool: Pool, addrs: seq<AddrParse>, mask: bv32, nums: bv32)
    requires addrs != []
    ensures addrs[0] == AddrInvalid ==> Reconcile(pool, addrs, mask, nums) == Reconciled(pool, BadAddr)
    ensures addrs[0] == AddrPanic ==> Reconcile(pool, addrs, mask, nums) == Reconciled(pool, Crash)
    ensures addrs[0].AddrOk? ==>
      Reconcile(pool, addrs, mask, nums) == Reconcile(Claim(pool, addrs[0].value, mask, nums), addrs[1..], mask, nums)
  {
  }

  /** The scan loop of NewDynamicIpUnderCIDR: uint32 of the first i from 2
      below bound whose pool entry is true, or 1 when there is none. */
  method ScanPool(pool: Pool, bound: int) returns (availableIp: bv32)
    ensures availableIp == Choose(pool, bound)
  {
    availableIp := 1;
    var k := 2;
    while k < bound
      invariant 2 <= k
      invariant FirstFree(pool, k, bound) == FirstFree(pool, 2, bound)
      invariant availableIp == 1
      decreases bound - k
    {
      if Available(pool, k) {
        assert FirstFree(pool, 2, bound) == Some(k);
        availableIp := U32(k);
        break;
      }
      k := k + 1;
    }
  }

  /** The scan and the assignment at the end of NewDynamicIpUnderCIDR, once
      every peer address has converted. */
  method AssignHost(network: bv32, networkMask: bv32, bound: int, pool: Pool) returns (res: Alloc)
    ensures res == Assignment(network, networkMask, Choose(pool, bound))
  {
    var availableIp := ScanPool(pool, bound);
    if availableIp == 1 {
      return AllocFailed;
    }
    // assignedIp := fullNet & networkMask | availableIp
    var assignedIp := HostAddr(network, networkMask, availableIp);
    var ipAddr := IpUInt32ToAddr(assignedIp);
    return Assigned(ipAddr);
  }

  /** NewDynamicIpUnderCIDR from the point where the interface address has
      converted to network: the reconciliation loop and the assignment. */
  method AllocateInNetwork(network: bv32, networkMask: bv32, bound: int, peers: seq<Peer>, pool: Pool)
    returns (res: Alloc, pool': Pool)
    ensures Allocation(res, pool') == AllocateIn(network, networkMask, bound, PeerAddrs(peers), pool)
  {
    var networkNums := network & networkMask;
    var rec := ReconcilePeers(pool, peers, networkMask, networkNums);
    pool' := rec.pool;
    if rec.status == BadAddr {
      return AllocFailed, pool';
    } else if rec.status == Crash {
      return AllocPanic, pool';
    }
    // The second conversion of the interface address gives network again.
    res := AssignHost(network, networkMask, bound, pool');
  }

  lemma AllocateSplit(cidr: string, peers: seq<Peer>, pool: Pool)
    requires |Split(cidr, '/')| >= 2
    ensures var f := Split(cidr, '/');
      match ParseAddr(f[0])
      case AddrInvalid => Allocate(cidr, peers, pool) == Allocation(AllocFailed, pool)
      case AddrPanic => Allocate(cidr, peers, pool) == Allocation(AllocPanic, pool)
      case AddrOk(network) =>
        var n := CidrBits(f[1]);
        Allocate(cidr, peers, pool) == AllocateIn(network, NetMask(n), ScanBound(HostBits(n)), PeerAddrs(peers), pool)
  {
  }

  method NewDynamicIpUnderCIDR(cidr: string, peers: seq<Peer>, pool: Pool) returns (res: Alloc, pool': Pool)
    ensures Allocation(res, pool') == Allocate(cidr, peers, pool)
  {
    var spNet := Split(cidr, '/');
    if |spNet| < 2 {
      return AllocPanic, pool;
    }
    AllocateSplit(cidr, peers, pool);
    var bits := Atoi(spNet[1]).Value();
    var networkBits := Trunc32(bits);
    var rstHostBits := HostBits(networkBits);
    var networkMask := NetworkMaskOf(networkBits);

    var network := IpAddrToUInt32(spNet[0]);
    match network {
      case AddrInvalid =>
        return AllocFailed, pool;
      case AddrPanic =>
        return AllocPanic, pool;
      case AddrOk(w) =>
        res, pool' := AllocateInNetwork(w, networkMask, ScanBound(rstHostBits), peers, pool);
    }
  }
}
