/** Properties of the address pool: what the reconciliation loop does to
    the pool, which host number the scan picks, which addresses the
    allocator can and cannot hand out, and what NewNetworkCIDR leaves for
    the first allocation. */
module AddressPoolFacts {
  import opened GoLib
  import opened AddrCodec
  import opened AddrCodecFacts
  import opened WireGuardBackend
  import opened AddressPool

  // ---------------------------------------------------------------------
  // Masks and the server address

  lemma {:induction false} Pow2Add(a: nat, b: nat)
    ensures Pow2(a) * Pow2(b) == Pow2(a + b)
  {
    if a > 0 {
      Pow2Add(a - 1, b);
      var p, q := Pow2(a - 1), Pow2(b);
      assert (2 * p) * q == 2 * (p * q);
    }
  }

  lemma {:induction false} Pow2Monotone(a: nat, b: nat)
    requires a <= b
    ensures Pow2(a) <= Pow2(b)
  {
    if a < b {
      Pow2Monotone(a, b - 1);
    }
  }

  lemma Pow2Of32()
    ensures Pow2(31) == 0x8000_0000 && Pow2(32) == 0x1_0000_0000
  {
    assert Pow2(8) == 0x100;
    Pow2Add(8, 8);
    Pow2Add(16, 8);
    Pow2Add(24, 8);
  }

  /** One doubling of a word below 2^31, with or without the low bit. */
  lemma DoubleWord(y: bv32)
    requires y as int < 0x8000_0000
    ensures (y << 1) as int == 2 * (y as int) && ((y << 1) | 1) as int == 2 * (y as int) + 1
  {
  }

  lemma DoubleAs(y: bv32, z: bv32, k: int)
    requires y as int == k < 0x8000_0000 && z == y << 1
    ensures z as int == 2 * k
  {
    DoubleWord(y);
  }

  lemma DoubleOneAs(y: bv32, z: bv32, k: int)
    requires y as int == k < 0x8000_0000 && z == (y << 1) | 1
    ensures z as int == 2 * k + 1
  {
    DoubleWord(y);
  }

  lemma Twice(v: nat, p: nat)
    ensures v * (2 * p) == 2 * (v * p) && v * p <= v * (2 * p)
  {
  }

  lemma MulPred(p: int, q: int)
    ensures (p - 1) * q == p * q - q
  {
  }

  /** Shifting a word left by c multiplies it by 2^c, as long as the
      product stays below 2^32. */
  lemma {:induction false} ShlValue(x: bv32, c: nat)
    requires x as int * Pow2(c) < 0x1_0000_0000
    ensures Shl(x, c) as int == x as int * Pow2(c)
  {
    if c > 0 {
      var v, p := x as int, Pow2(c - 1);
      Twice(v, p);
      assert Pow2(c) == 2 * p;
      ShlValue(x, c - 1);
      DoubleAs(Shl(x, c - 1), Shl(x, c), v * p);
    }
  }

  /** The mask-building loop of NewNetworkCIDR and NewDynamicIpUnderCIDR
      yields 2^n - 1, the low n bits. */
  lemma {:induction false} LowBitsValue(n: nat)
    requires 1 <= n <= 32
    ensures LowBits(n) as int == Pow2(n) - 1
  {
    if n > 1 {
      var k := Pow2(n - 1) - 1;
      assert LowBits(n - 1) as int == k by { LowBitsValue(n - 1); }
      assert k < 0x8000_0000 by { Pow2Monotone(n - 1, 31); Pow2Of32(); }
      DoubleOneAs(LowBits(n - 1), LowBits(n), k);
    }
  }

  /** The leading bit of an n-bit network number is 2^(n-1). */
  lemma LeadValue(n: nat)
    requires 1 <= n <= 32
    ensures Lead(n) as int == Pow2(n - 1)
  {
    assert 1 * Pow2(n - 1) < 0x1_0000_0000 by {
      Pow2Monotone(n - 1, 31);
      Pow2Of32();
    }
    ShlValue(1, n - 1);
  }

  /** The network mask of n bits is the top n bits of the word:
      2^32 - 2^(32-n). */
  lemma NetMaskValue(n: nat)
    requires 1 <= n <= 32
    ensures NetMask(n) as int == Pow2(32) - Pow2(32 - n)
  {
    var low, q := LowBits(n), Pow2(32 - n);
    assert low as int * q == Pow2(32) - q by {
      var p := Pow2(n);
      LowBitsValue(n);
      Pow2Add(n, 32 - n);
      MulPred(p, q);
    }
    assert 1 <= q by { Pow2AtLeast(32 - n); }
    assert Pow2(32) == 0x1_0000_0000 by { Pow2Of32(); }
    assert HostBits(n) == 32 - n;
    ShlValue(low, 32 - n);
  }

  /** The mask of a /24 network, the default size, is 255.255.255.0. */
  lemma NetMask24()
    ensures NetMask(24) == 0xFFFF_FF00
  {
    NetMaskValue(24);
    assert Pow2(8) == 0x100;
    Pow2Of32();
    assert NetMask(24) as int == 0xFFFF_FF00;
  }

  lemma {:induction false} ShlAdd(x: bv32, a: nat, b: nat)
    ensures Shl(Shl(x, a), b) == Shl(x, a + b)
  {
    if b > 0 {
      ShlAdd(x, a, b - 1);
    }
  }

  lemma {:induction false} ShlZero(c: nat)
    ensures Shl(0, c) == 0
  {
    if c > 0 {
      ShlZero(c - 1);
    }
  }

  lemma ShiftClears(y: bv32, low: bv32)
    requires y & low == 0
    ensures (y << 1) & ((low << 1) | 1) == 0
  {
  }

  /** A shift by c leaves the low c bits clear. */
  lemma {:induction false} ShlClears(x: bv32, c: nat)
    requires c >= 1
    ensures Shl(x, c) & LowBits(c) == 0
  {
    if c > 1 {
      ShlClears(x, c - 1);
      LowBitsStep(c - 1);
      ShiftClears(Shl(x, c - 1), LowBits(c - 1));
    } else {
      assert (x << 1) & 1 == 0;
    }
  }

  lemma ShlEven(x: bv32, c: nat)
    requires c >= 1
    ensures Shl(x, c) & 1 == 0
  {
    var y := Shl(x, c - 1);
    assert (y << 1) & 1 == 0;
  }

  lemma TopBit()
    ensures Shl(1, 31) == 0x8000_0000
  {
    LeadValue(32);
    Pow2Of32();
    assert Lead(32) as int == 0x8000_0000;
  }

  lemma AllOnes()
    ensures LowBits(32) == 0xFFFF_FFFF
  {
    LowBitsLead(32);
    TopBit();
  }

  /** A count of 32 or more shifts every bit out, as Go's << does. */
  lemma ShlWide(x: bv32, c: nat)
    requires c >= 32
    ensures Shl(x, c) == 0
  {
    assert Shl(x, 32) == 0 by {
      ShlClears(x, 32);
      AllOnes();
    }
    ShlAdd(x, 32, c - 32);
    ShlZero(c - 32);
  }

  lemma ShiftDisjoint(x: bv32, y: bv32)
    requires x & !y == 0
    ensures (x << 1) & !(y << 1) == 0
  {
  }

  /** A bit set in a but not in b stays so under the same shift. */
  lemma {:induction false} ShlDisjoint(a: bv32, b: bv32, c: nat)
    requires a & !b == 0
    ensures Shl(a, c) & !Shl(b, c) == 0
  {
    if c > 0 {
      ShlDisjoint(a, b, c - 1);
      ShiftDisjoint(Shl(a, c - 1), Shl(b, c - 1));
    }
  }

  lemma LowLeadStep(l: bv32)
    ensures ((l | (l - 1)) << 1) | 1 == (l << 1) | ((l << 1) - 1)
  {
  }

  /** The low-bits mask is the leading bit and every bit below it. */
  lemma {:induction false} LowBitsLead(n: nat)
    requires n >= 1
    ensures LowBits(n) == Lead(n) | (Lead(n) - 1)
  {
    if n > 1 {
      LowBitsLead(n - 1);
      LeadStep(n - 1);
      LowLeadStep(Lead(n - 1));
    }
  }

  lemma LeadingBits(r: bv32, l: bv32, lead: bv32)
    requires l == lead | (lead - 1)
    ensures lead & !((r & l) | lead) == 0 && ((r & l) | lead) & !l == 0
  {
  }

  /** The network number has its leading bit and no bit above it. */
  lemma NetworkNumberBits(r: bv32, n: nat)
    requires n >= 1
    ensures Lead(n) & !NetworkNumber(r, n) == 0
    ensures NetworkNumber(r, n) & !LowBits(n) == 0
  {
    var low, lead := LowBits(n), Lead(n);
    assert low == lead | (lead - 1) by { LowBitsLead(n); }
    LeadingBits(r, low, lead);
  }

  lemma TopAndLow(s: bv32)
    requires 0x8000_0000 & !s == 0
    ensures (s | 1) & 0x8000_0000 != 0 && (s | 1) & 1 == 1
  {
  }

  lemma HostOne(s: bv32, m: bv32)
    requires s & !m == 0 && s & 1 == 0 && m & 1 == 0
    ensures (s | 1) & !m == 1
  {
  }

  /** For at most 32 network bits the shift count 32 - n does not wrap. */
  lemma WordParts(r: bv32, n: nat)
    requires n <= 32
    ensures NetworkWord(r, n) == Shl(NetworkNumber(r, n), 32 - n) | 1
    ensures NetMask(n) == Shl(LowBits(n), 32 - n)
  {
    assert HostBits(n) == 32 - n;
  }

  /** The leading bit of the network number lands on bit 31. */
  lemma LeadMovesUp(r: bv32, n: nat)
    requires 1 <= n <= 32
    ensures 0x8000_0000 & !Shl(NetworkNumber(r, n), 32 - n) == 0
  {
    var c := 32 - n;
    assert Shl(Lead(n), c) == 0x8000_0000 by {
      ShlAdd(1, n - 1, c);
      TopBit();
    }
    NetworkNumberBits(r, n);
    ShlDisjoint(Lead(n), NetworkNumber(r, n), c);
  }

  /** The server address NewNetworkCIDR derives for 1 <= n <= 32 network
      bits, (((r & (2^n - 1)) | 2^(n-1)) << (32 - n)) | 1, has its top bit
      set, the leading bit of the network number having landed there, and
      its lowest bit set. */
  lemma ServerTopBit(r: bv32, n: nat)
    requires 1 <= n <= 32
    ensures NetworkWord(r, n) & 0x8000_0000 != 0 && NetworkWord(r, n) & 1 == 1
  {
    LeadMovesUp(r, n);
    WordParts(r, n);
    TopAndLow(Shl(NetworkNumber(r, n), 32 - n));
  }

  lemma HostPartFacts(r: bv32, n: nat)
    requires 1 <= n <= 31
    ensures Shl(NetworkNumber(r, n), 32 - n) & !Shl(LowBits(n), 32 - n) == 0
    ensures Shl(NetworkNumber(r, n), 32 - n) & 1 == 0 && Shl(LowBits(n), 32 - n) & 1 == 0
  {
    NetworkNumberBits(r, n);
    ShlDisjoint(NetworkNumber(r, n), LowBits(n), 32 - n);
    ShlEven(NetworkNumber(r, n), 32 - n);
    ShlEven(LowBits(n), 32 - n);
  }

  lemma HostLine(r: bv32, n: nat)
    requires 1 <= n <= 31
    ensures (Shl(NetworkNumber(r, n), 32 - n) | 1) & !Shl(LowBits(n), 32 - n) == 1
  {
    HostPartFacts(r, n);
    HostOne(Shl(NetworkNumber(r, n), 32 - n), Shl(LowBits(n), 32 - n));
  }

  /** Below 32 network bits, the host part of the server address under
      the n-bit network mask is exactly 1: the server holds the first host
      of its network. */
  lemma ServerHostPart(r: bv32, n: nat)
    requires 1 <= n <= 31
    ensures NetworkWord(r, n) & !NetMask(n) == 1
  {
    HostLine(r, n);
    WordParts(r, n);
  }

  /** For a prefix of 0, or one past 32 so that 32 - n wraps in uint32,
      Go's shift by 32 or more clears the network number: the server
      address is 0.0.0.1. */
  lemma ServerAddrNoPrefix(r: bv32, n: nat)
    requires n == 0 || 32 < n < 0x1_0000_0000
    ensures NetworkWord(r, n) == 1
  {
    ShlWide(NetworkNumber(r, n), HostBits(n));
  }

  // ---------------------------------------------------------------------
  // The scan

  /** The scan finds the lowest i in [lo, hi) whose entry is true, and
      finds nothing exactly when there is none. */
  lemma {:induction false} FirstFreeSpec(pool: Pool, lo: int, hi: int)
    ensures FirstFree(pool, lo, hi).Some? ==>
      var i := FirstFree(pool, lo, hi).value;
      lo <= i < hi && Available(pool, i) &&
      forall j :: lo <= j < i ==> !Available(pool, j)
    ensures FirstFree(pool, lo, hi).None? <==> forall j :: lo <= j < hi ==> !Available(pool, j)
    decreases hi - lo
  {
    if lo < hi && !Available(pool, lo) {
      FirstFreeSpec(pool, lo + 1, hi);
    }
  }

  /** Conversely, the scan finds m when m is the first available entry
      from lo below hi. */
  lemma FirstFreeAt(pool: Pool, lo: int, hi: int, m: int)
    requires lo <= m < hi && Available(pool, m)
    requires forall j :: lo <= j < m ==> !Available(pool, j)
    ensures FirstFree(pool, lo, hi) == Some(m)
  {
    FirstFreeSpec(pool, lo, hi);
  }

  // ---------------------------------------------------------------------
  // Reconciliation

  /** Every peer address converts. */
  predicate AllParse(addrs: seq<AddrParse>)
  {
    forall i :: 0 <= i < |addrs| ==> addrs[i].AddrOk?
  }

  /** Address ip lies in the network nums under mask and has host
      number k. */
  predicate InNetworkHost(ip: bv32, mask: bv32, nums: bv32, k: int)
  {
    ip & mask == nums && Key(ip & !mask) == k
  }

  /** A converted peer address lies in the network and has host number k. */
  predicate HostOf(a: AddrParse, mask: bv32, nums: bv32, k: int)
  {
    a.AddrOk? && InNetworkHost(a.value, mask, nums, k)
  }

  /** Some peer holds host number k in the network. */
  predicate Claimed(addrs: seq<AddrParse>, mask: bv32, nums: bv32, k: int)
  {
    exists i :: 0 <= i < |addrs| && HostOf(addrs[i], mask, nums, k)
  }

  /** One round of the loop: the peer's host number reads false, every
      other entry is as before. */
  lemma ClaimGet(pool: Pool, ip: bv32, mask: bv32, nums: bv32, k: int)
    ensures Get(Claim(pool, ip, mask, nums), k) == if InNetworkHost(ip, mask, nums, k) then Some(false) else Get(pool, k)
  {
    if ip & mask != nums {
      ClaimGetOutside(pool, ip, mask, nums, k);
    } else {
      ClaimGetInside(pool, ip, mask, nums, k);
    }
  }

  lemma ClaimGetOutside(pool: Pool, ip: bv32, mask: bv32, nums: bv32, k: int)
    requires ip & mask != nums
    ensures !InNetworkHost(ip, mask, nums, k) && Get(Claim(pool, ip, mask, nums), k) == Get(pool, k)
  {
    ClaimOutside(pool, ip, mask, nums);
  }

  lemma ClaimGetInside(pool: Pool, ip: bv32, mask: bv32, nums: bv32, k: int)
    requires ip & mask == nums
    ensures Get(Claim(pool, ip, mask, nums), k) == if InNetworkHost(ip, mask, nums, k) then Some(false) else Get(pool, k)
  {
    ClaimInside(pool, ip, mask, nums);
  }

  /** The reconciliation loop completes exactly when every peer address
      converts, and then the pool differs from the old one only in that
      the host number of every peer inside the network reads false. */
  lemma {:induction false} ReconcileSpec(pool: Pool, addrs: seq<AddrParse>, mask: bv32, nums: bv32)
    ensures Reconcile(pool, addrs, mask, nums).status == Done <==> AllParse(addrs)
    ensures Reconcile(pool, addrs, mask, nums).status == Done ==>
      forall k :: Get(Reconcile(pool, addrs, mask, nums).pool, k) ==
        if Claimed(addrs, mask, nums, k) then Some(false) else Get(pool, k)
    decreases |addrs|
  {
    if addrs == [] {
      return;
    }
    match addrs[0] {
      case AddrInvalid =>
        assert !AllParse(addrs) by { assert !addrs[0].AddrOk?; }
      case AddrPanic =>
        assert !AllParse(addrs) by { assert !addrs[0].AddrOk?; }
      case AddrOk(ip) =>
        var next := Claim(pool, ip, mask, nums);
        ReconcileSpec(next, addrs[1..], mask, nums);
        assert AllParse(addrs) <==> AllParse(addrs[1..]) by {
          forall i | 1 <= i < |addrs|
            ensures addrs[i] == addrs[1..][i - 1]
          {
          }
        }
        if AllParse(addrs) {
          forall k
            ensures Get(Reconcile(pool, addrs, mask, nums).pool, k) ==
              if Claimed(addrs, mask, nums, k) then Some(false) else Get(pool, k)
          {
            ClaimGet(pool, ip, mask, nums, k);
            ClaimedCons(addrs, mask, nums, k);
          }
        }
    }
  }

  lemma ClaimedCons(addrs: seq<AddrParse>, mask: bv32, nums: bv32, k: int)
    requires addrs != []
    ensures Claimed(addrs, mask, nums, k) <==> HostOf(addrs[0], mask, nums, k) || Claimed(addrs[1..], mask, nums, k)
  {
    if Claimed(addrs, mask, nums, k) && !HostOf(addrs[0], mask, nums, k) {
      var i :| 0 <= i < |addrs| && HostOf(addrs[i], mask, nums, k);
      assert addrs[1..][i - 1] == addrs[i];
    }
    if Claimed(addrs[1..], mask, nums, k) {
      var i :| 0 <= i < |addrs[1..]| && HostOf(addrs[1..][i], mask, nums, k);
      assert addrs[i + 1] == addrs[1..][i];
    }
  }

  /** Pools that read the same under every key are the same map. */
  lemma GetExt(a: Pool, b: Pool)
    requires forall k :: Get(a, k) == Get(b, k)
    ensures a == b
  {
    forall k | k in a
      ensures k in b && a[k] == b[k]
    {
      assert Get(a, k) == Get(b, k);
    }
    forall k | k in b
      ensures k in a
    {
      assert Get(a, k) == Get(b, k);
    }
  }

  /** Reconciling a second time against the same addrs changes nothing. */
  lemma ReconcileTwice(pool: Pool, addrs: seq<AddrParse>, mask: bv32, nums: bv32)
    requires Reconcile(pool, addrs, mask, nums).status == Done
    ensures Reconcile(Reconcile(pool, addrs, mask, nums).pool, addrs, mask, nums) == Reconcile(pool, addrs, mask, nums)
  {
    var once := Reconcile(pool, addrs, mask, nums);
    ReconcileSpec(pool, addrs, mask, nums);
    ReconcileSpec(once.pool, addrs, mask, nums);
    GetExt(Reconcile(once.pool, addrs, mask, nums).pool, once.pool);
  }

  // ---------------------------------------------------------------------
  // Allocation

  /** Once the interface address has converted to network, with network
      mask mask and scan bound bound: NewDynamicIpUnderCIDR leaves the
      reconciled pool (the host it hands out is not marked), and it
      assigns an address exactly when every peer address converts and the
      scan finds a host number other than 1; that host number is the
      lowest i from 2 below the bound whose entry is true, OR-ed into the
      network bits. */
  lemma AllocateInSpec(network: bv32, mask: bv32, bound: int, addrs: seq<AddrParse>, pool: Pool)
    ensures var rec := Reconcile(pool, addrs, mask, network & mask);
      var a := AllocateIn(network, mask, bound, addrs, pool);
      a.pool == rec.pool &&
      (a.outcome.Assigned? <==>
        AllParse(addrs) && FirstFree(rec.pool, 2, bound).Some? && U32(FirstFree(rec.pool, 2, bound).value) != 1) &&
      (a.outcome.Assigned? ==>
        var i := FirstFree(rec.pool, 2, bound).value;
        2 <= i < bound && Available(rec.pool, i) &&
        (forall j :: 2 <= j < i ==> !Available(rec.pool, j)) &&
        a.outcome.ip == AddrText(HostAddr(network, mask, U32(i))))
  {
    var rec := Reconcile(pool, addrs, mask, network & mask);
    ReconcileSpec(pool, addrs, mask, network & mask);
    FirstFreeSpec(rec.pool, 2, bound);
  }

  /** The network bits of an assigned address are the interface's, and its
      host bits are the host number, provided the host number stays below
      the network bits. */
  lemma HostAddrParts(network: bv32, mask: bv32, h: bv32)
    requires h & mask == 0
    ensures HostAddr(network, mask, h) & mask == network & mask
    ensures HostAddr(network, mask, h) & !mask == h
  {
  }

  /** The address NewDynamicIpUnderCIDR assigns (AllocateInSpec: the text
      of HostAddr(network, mask, uint32(i)) for the host number i the scan
      finds once every peer address has converted) is no peer's address,
      as long as the host number fits in the host bits. */
  lemma AllocationAvoidsPeers(network: bv32, mask: bv32, bound: int, addrs: seq<AddrParse>, pool: Pool)
    requires AllParse(addrs)
    requires var i := FirstFree(Reconcile(pool, addrs, mask, network & mask).pool, 2, bound);
      i.Some? && U32(i.value) & mask == 0
    ensures var i := FirstFree(Reconcile(pool, addrs, mask, network & mask).pool, 2, bound).value;
      forall k :: 0 <= k < |addrs| ==> addrs[k] != AddrOk(HostAddr(network, mask, U32(i)))
  {
    var nums := network & mask;
    var rec := Reconcile(pool, addrs, mask, nums);
    var i := FirstFree(rec.pool, 2, bound).value;
    var h := U32(i);
    var w := HostAddr(network, mask, h);
    FirstFreeSpec(rec.pool, 2, bound);
    HostAddrParts(network, mask, h);
    forall k | 0 <= k < |addrs|
      ensures addrs[k] != AddrOk(w)
    {
      NoPeerAtFreeHost(pool, addrs, mask, nums, k, w, h);
    }
  }

  /** A peer whose address has the network bits and host number h of a
      host that is still free after reconciliation cannot exist. */
  lemma NoPeerAtFreeHost(pool: Pool, addrs: seq<AddrParse>, mask: bv32, nums: bv32, k: int, w: bv32, h: bv32)
    requires AllParse(addrs) && Lookup(Reconcile(pool, addrs, mask, nums).pool, Key(h))
    requires w & mask == nums && w & !mask == h
    requires 0 <= k < |addrs|
    ensures addrs[k] != AddrOk(w)
  {
    ReconcileSpec(pool, addrs, mask, nums);
    if addrs[k] == AddrOk(w) {
      PeerAtAddress(addrs[k], mask, nums, w);
      assert Key(w & !mask) == Key(h);
      assert Claimed(addrs, mask, nums, Key(h));
      assert false;
    }
  }

  lemma PeerAtAddress(a: AddrParse, mask: bv32, nums: bv32, w: bv32)
    requires a == AddrOk(w) && w & mask == nums
    ensures HostOf(a, mask, nums, Key(w & !mask))
  {
  }

  /** The host number handed out is not marked as taken: a second call
      with the same peers on the pool the first one left hands out the
      same address again. */
  lemma RepeatAllocation(network: bv32, mask: bv32, bound: int, addrs: seq<AddrParse>, pool: Pool)
    requires AllocateIn(network, mask, bound, addrs, pool).outcome.Assigned?
    ensures AllocateIn(network, mask, bound, addrs, AllocateIn(network, mask, bound, addrs, pool).pool)
      == AllocateIn(network, mask, bound, addrs, pool)
  {
    AllocateInSpec(network, mask, bound, addrs, pool);
    ReconcileSpec(pool, addrs, mask, network & mask);
    ReconcileTwice(pool, addrs, mask, network & mask);
  }

  /** On a pool NewNetworkCIDR has just filled for n network bits (n from
      2 to 31), the scan of NewDynamicIpUnderCIDR for the same n picks host
      number 2, the first after the server's. */
  lemma FreshPoolFirstHost(pool: Pool, pool': Pool, n: nat)
    requires 2 <= n <= 31 && Filled(pool, pool', FillBound(n))
    ensures FirstFree(pool', 2, ScanBound(HostBits(n))) == Some(2)
  {
    Pow2AtLeast(32 - n);
    assert Get(pool', 2) == Some(true);
    SmallKey(2);
    assert Available(pool', 2);
    FirstFreeAt(pool', 2, ScanBound(HostBits(n)), 2);
  }

  lemma {:induction false} Pow2AtLeast(k: nat)
    ensures Pow2(k) >= 1
  {
    if k > 0 {
      Pow2AtLeast(k - 1);
    }
  }

  /** The 24-bit default of NewNetworkCIDR fills keys up to 512, and the
      scan of NewDynamicIpUnderCIDR for 24 bits stops below 512. */
  lemma DefaultBounds()
    ensures FillBound(24) == 512 && ScanBound(HostBits(24)) == 512
  {
  }

  /** The scan bound of a /24 network is 512, twice its host space, and
      the fill loop sets the keys up to 512, so once hosts 2 .. 255 are
      taken the scan picks 256, whose bit lands in the network bits. In
      the network 10.0.1.0/24 (interface address 10.0.1.1) with a peer at
      10.0.1.0, the address handed out is that peer's own address. */
  lemma BleedExample(pool: Pool, bound: int)
    requires pool == map[256 := true] && bound == ScanBound(HostBits(24))
    ensures var peer: bv32 := 0x0A00_0100;
      AllocateIn(0x0A00_0101, NetMask(24), bound, [AddrOk(peer)], pool).outcome == Assigned(AddrText(peer))
  {
    DefaultBounds();
    NetMask24();
    var mask: bv32 := 0xFFFF_FF00;
    var rec := Reconcile(pool, [AddrOk(0x0A00_0100)], mask, 0x0A00_0101 & mask);
    assert rec == Reconciled(pool[0 := false], Done);
    ScanPastTaken(rec.pool, bound);
    SmallWord9(256);
    assert HostAddr(0x0A00_0101, mask, 0x100) == 0x0A00_0100;
  }

  /** With keys 2 .. 255 absent or false and key 256 true, the scan
      picks 256. */
  lemma ScanPastTaken(pool: Pool, bound: int)
    requires pool == map[256 := true, 0 := false] && bound == 512
    ensures FirstFree(pool, 2, bound) == Some(256)
  {
    forall j | 2 <= j < 256
      ensures !Available(pool, j)
    {
      TakenBelow256(pool, j);
    }
    FreeAt256(pool);
    FirstFreeAt(pool, 2, bound, 256);
  }

  lemma FreeAt256(pool: Pool)
    requires pool == map[256 := true, 0 := false]
    ensures Available(pool, 256)
  {
    SmallKey(256);
  }

  lemma TakenBelow256(pool: Pool, i: int)
    requires pool == map[256 := true, 0 := false] && 2 <= i < 256
    ensures !Available(pool, i)
  {
    SmallKey(i);
  }

  /** A number below 512 is its own pool key. */
  lemma SmallKey(n: int)
    requires 0 <= n < 512
    ensures Key(U32(n)) == n
  {
    SmallWord9(n);
    Nine(n as bv9);
  }

  lemma SmallWord9(n: int)
    requires 0 <= n < 512
    ensures U32(n) == (n as bv9) as bv32 && (n as bv9) as int == n
  {
    SmallWord(n);
  }

  lemma Nine(x: bv9)
    ensures (x as bv32) as int == x as int
  {
  }
}
