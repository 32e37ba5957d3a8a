/** The daemon's IPv4 address codec: IpUInt32ToAddr renders a 32-bit word
    as dotted-quad text, IpAddrToUInt32 parses dotted text back into a word.
    Go's uint32 arithmetic is modelled with bv32. */
module AddrCodec {
  import opened GoLib

  /** uint32(n) for a Go int n: two's-complement truncation to 32 bits. */
  function U32(n: int): bv32
  {
    (n % 0x1_0000_0000) as bv32
  }

  /** The four bytes of v, most significant first. */
  function Octets(v: bv32): seq<bv8>
  {
    [((v >> 24) & 0xFF) as bv8, ((v >> 16) & 0xFF) as bv8, ((v >> 8) & 0xFF) as bv8, (v & 0xFF) as bv8]
  }

  /** Decimal fields joined by dots. */
  function Dotted(a: int, b: int, c: int, d: int): string
  {
    Itoa(a) + "." + Itoa(b) + "." + Itoa(c) + "." + Itoa(d)
  }

  /** The text IpUInt32ToAddr produces: the four bytes of v, most
      significant first, in decimal, separated by dots. */
  function AddrText(v: bv32): string
  {
    var o := Octets(v);
    Dotted(o[0] as int, o[1] as int, o[2] as int, o[3] as int)
  }

  /** The word IpAddrToUInt32 accumulates from four field values: starting
      from 0, each is OR-ed in and the result shifted by a byte, except after
      the last. */
  function Pack(a: bv32, b: bv32, c: bv32, d: bv32): bv32
  {
    ((((((a << 8) | b) << 8) | c) << 8) | d)
  }

  /** Outcome of IpAddrToUInt32: a word, a conversion error from
      strconv.Atoi, or the index panic Go raises on fewer than four fields. */
  datatype AddrParse = AddrOk(value: bv32) | AddrInvalid | AddrPanic

  /** IpAddrToUInt32 as a function of its input: the first four dot-separated
      fields are converted in order; the first one that is missing panics,
      the first one Atoi rejects is an error; fields after the fourth are
      never looked at. */
  function ParseAddr(s: string): AddrParse
  {
    var f := Split(s, '.');
    if !Atoi(f[0]).Parsed? then AddrInvalid
    else if |f| < 2 then AddrPanic
    else if !Atoi(f[1]).Parsed? then AddrInvalid
    else if |f| < 3 then AddrPanic
    else if !Atoi(f[2]).Parsed? then AddrInvalid
    else if |f| < 4 then AddrPanic
    else if !Atoi(f[3]).Parsed? then AddrInvalid
    else AddrOk(Pack(FieldWord(f, 0), FieldWord(f, 1), FieldWord(f, 2), FieldWord(f, 3)))
  }

  /** The text built by the second loop of IpUInt32ToAddr after k fields. */
  function Emitted(section: seq<bv8>, k: nat): string
    requires k <= |section| && k <= 4
  {
    if k == 0 then ""
    else Emitted(section, k - 1) + Itoa(section[k - 1] as int) + (if k - 1 != 3 then "." else "")
  }

  /** IpUInt32ToAddr: the bytes of ip are stored in a four-byte array from
      the last slot down, then printed in slot order. */
  method IpUInt32ToAddr(ip: bv32) returns (addr: string)
    ensures addr == AddrText(ip)
  {
    var section := new bv8[4];
    var x := ip;
    var i := 4;
    while i > 0
      invariant 0 <= i <= 4
      invariant i == 4 ==> x == ip
      invariant i == 3 ==> x == ip >> 8
      invariant i == 2 ==> x == ip >> 16
      invariant i == 1 ==> x == ip >> 24
      invariant i <= 3 ==> section[3] == Octets(ip)[3]
      invariant i <= 2 ==> section[2] == Octets(ip)[2]
      invariant i <= 1 ==> section[1] == Octets(ip)[1]
      invariant i == 0 ==> section[0] == Octets(ip)[0]
    {
      section[i - 1] := (x & 0xFF) as bv8;
      x := x >> 8;
      i := i - 1;
    }
    ghost var octs := section[..];
    assert octs == Octets(ip);
    addr := "";
    var k := 0;
    while k < 4
      invariant 0 <= k <= 4
      invariant addr == Emitted(octs, k)
    {
      addr := addr + Itoa(section[k] as int);
      if k != 3 {
        addr := addr + ".";
      }
      k := k + 1;
    }
    EmittedDotted(octs);
  }

  lemma EmittedDotted(s: seq<bv8>)
    requires |s| == 4
    ensures Emitted(s, 4) == Dotted(s[0] as int, s[1] as int, s[2] as int, s[3] as int)
  {
    var t0, t1, t2, t3 := Itoa(s[0] as int), Itoa(s[1] as int), Itoa(s[2] as int), Itoa(s[3] as int);
    assert Emitted(s, 1) == t0 + ".";
    assert Emitted(s, 2) == t0 + "." + t1 + ".";
    assert Emitted(s, 3) == t0 + "." + t1 + "." + t2 + ".";
    assert Emitted(s, 4) == t0 + "." + t1 + "." + t2 + "." + t3;
  }

  /** The word uint32(sec) for the int Atoi returns on field f[j] (the
      loop only uses it when Atoi accepted the field). */
  function FieldWord(f: seq<string>, j: nat): bv32
  {
    if j < |f| then U32(Atoi(f[j]).Value()) else 0
  }

  /** IpAddrToUInt32: splits at '.', converts the first four fields with
      strconv.Atoi and accumulates them into one word. */
  method IpAddrToUInt32(addr: string) returns (r: AddrParse)
    ensures r == ParseAddr(addr)
  {
    var ipSection := Split(addr, '.');
    var ip: bv32 := 0;
    var i := 0;
    while i < 4
      invariant 0 <= i <= 4 && Progress(ipSection, i, ip)
    {
      if i >= |ipSection| {
        ParseAddrStops(addr, i);
        return AddrPanic;
      }
      var sec := Atoi(ipSection[i]);
      if !sec.Parsed? {
        ParseAddrStops(addr, i);
        return AddrInvalid;
      }
      ghost var prev := ip;
      ip := ip | U32(sec.value);
      if i != 3 {
        ip := ip << 8;
        ProgressShift(ipSection, i, prev);
      } else {
        ProgressLast(ipSection, prev);
      }
      i := i + 1;
    }
    ProgressDone(addr, ip);
    return AddrOk(ip);
  }

  /** After i rounds, IpAddrToUInt32's loop has converted the first i
      fields and holds their accumulated word. */
  predicate Progress(f: seq<string>, i: nat, ip: bv32)
  {
    i <= 4 && Converted(f, i) && ip == Accumulated(f, i)
  }

  /** The first i fields are there and Atoi accepts them. */
  predicate Converted(f: seq<string>, i: nat)
  {
    i <= |f| && forall j :: 0 <= j < i ==> Atoi(f[j]).Parsed?
  }

  /** The word IpAddrToUInt32's loop holds after OR-ing in the first i
      fields: shifted by a byte after each of the first three. */
  function Accumulated(f: seq<string>, i: nat): bv32
  {
    if i == 0 then 0
    else if i < 4 then (Accumulated(f, i - 1) | FieldWord(f, i - 1)) << 8
    else Accumulated(f, 3) | FieldWord(f, 3)
  }

  lemma ProgressShift(f: seq<string>, i: nat, ip: bv32)
    requires i < 3 && i < |f| && Progress(f, i, ip) && Atoi(f[i]).Parsed?
    ensures Progress(f, i + 1, (ip | FieldWord(f, i)) << 8)
  {
    assert Converted(f, i + 1);
  }

  lemma ProgressLast(f: seq<string>, ip: bv32)
    requires 3 < |f| && Progress(f, 3, ip) && Atoi(f[3]).Parsed?
    ensures Progress(f, 4, ip | FieldWord(f, 3))
  {
    assert Converted(f, 4);
  }

  lemma ProgressDone(addr: string, ip: bv32)
    requires Progress(Split(addr, '.'), 4, ip)
    ensures ParseAddr(addr) == AddrOk(ip)
  {
    AccumulatedPack(Split(addr, '.'));
    ParseAddrPacks(addr);
  }

  /** When all four fields convert, ParseAddr packs their words. */
  lemma ParseAddrPacks(addr: string)
    requires Converted(Split(addr, '.'), 4)
    ensures var f := Split(addr, '.');
      ParseAddr(addr) == AddrOk(Pack(FieldWord(f, 0), FieldWord(f, 1), FieldWord(f, 2), FieldWord(f, 3)))
  {
  }

  lemma AccumulatedPack(f: seq<string>)
    ensures Accumulated(f, 4) == Pack(FieldWord(f, 0), FieldWord(f, 1), FieldWord(f, 2), FieldWord(f, 3))
  {
    var a, b, c, d := FieldWord(f, 0), FieldWord(f, 1), FieldWord(f, 2), FieldWord(f, 3);
    var x1, x2, x3, x4 := Accumulated(f, 1), Accumulated(f, 2), Accumulated(f, 3), Accumulated(f, 4);
    assert x1 == (0 | a) << 8 by { AccumulatedShift(f, 0); }
    assert x2 == (x1 | b) << 8 by { AccumulatedShift(f, 1); }
    assert x3 == (x2 | c) << 8 by { AccumulatedShift(f, 2); }
    assert x4 == x3 | d;
    PackChain(x1, x2, x3, x4, a, b, c, d);
  }

  lemma AccumulatedShift(f: seq<string>, i: nat)
    requires i < 3
    ensures Accumulated(f, i + 1) == (Accumulated(f, i) | FieldWord(f, i)) << 8
  {
  }

  /** Four rounds of the loop, starting from 0, pack the four words. */
  lemma PackChain(x1: bv32, x2: bv32, x3: bv32, x4: bv32, a: bv32, b: bv32, c: bv32, d: bv32)
    requires x1 == (0 | a) << 8 && x2 == (x1 | b) << 8 && x3 == (x2 | c) << 8 && x4 == x3 | d
    ensures x4 == Pack(a, b, c, d)
  {
  }

  /** Where the loop of IpAddrToUInt32 stops early, ParseAddr stops too:
      on a missing field with the panic, on a field Atoi rejects with the
      error. */
  lemma ParseAddrStops(addr: string, i: nat)
    requires i < 4 && Converted(Split(addr, '.'), if i < |Split(addr, '.')| then i else |Split(addr, '.')|)
    ensures i >= |Split(addr, '.')| ==> ParseAddr(addr) == AddrPanic
    ensures i < |Split(addr, '.')| && !Atoi(Split(addr, '.')[i]).Parsed? ==> ParseAddr(addr) == AddrInvalid
  {
  }
}

/** Properties of the address codec. */
module AddrCodecFacts {
  import opened GoLib
  import opened AddrCodec

  lemma SmallWord(n: int)
    requires 0 <= n < 0x1_0000_0000
    ensures U32(n) == n as bv32
  {
    assert n % 0x1_0000_0000 == n;
  }

  lemma ByteWidening(n: int)
    requires 0 <= n < 256
    ensures n as bv32 == (n as bv8) as bv32
  {
  }

  lemma ByteRoundTrip(x: bv8)
    ensures (x as int) as bv8 == x
  {
  }

  /** uint32(int(b)) of a byte b is b itself. */
  lemma ByteWord(x: bv8)
    ensures U32(x as int) == x as bv32
  {
    var n := x as int;
    SmallWord(n);
    ByteWidening(n);
    ByteRoundTrip(x);
    assert (n as bv8) == x;
  }

  /** Packing the four bytes of v, most significant first, gives v back. */
  lemma OctetsPack(v: bv32)
    ensures Pack(Octets(v)[0] as bv32, Octets(v)[1] as bv32, Octets(v)[2] as bv32, Octets(v)[3] as bv32) == v
  {
  }

  lemma SplitDotted(a: int, b: int, c: int, d: int)
    ensures Split(Dotted(a, b, c, d), '.') == [Itoa(a), Itoa(b), Itoa(c), Itoa(d)]
  {
    var ta, tb, tc, td := Itoa(a), Itoa(b), Itoa(c), Itoa(d);
    ItoaNoSeparator(a, '.');
    ItoaNoSeparator(b, '.');
    ItoaNoSeparator(c, '.');
    ItoaNoSeparator(d, '.');
    SplitNoSeparator(td, '.');
    SplitAtSeparator(tc, '.', td);
    SplitAtSeparator(tb, '.', tc + "." + td);
    assert tb + ['.'] + (tc + "." + td) == tb + "." + tc + "." + td;
    SplitAtSeparator(ta, '.', tb + "." + tc + "." + td);
    assert Dotted(a, b, c, d) == ta + ['.'] + (tb + "." + tc + "." + td);
  }

  /** Dotted text of four 64-bit ints parses to the word the loop of
      IpAddrToUInt32 accumulates from them; values above 255 are OR-ed in
      rather than rejected. */
  lemma ParseDotted(a: int, b: int, c: int, d: int)
    requires MinInt64 <= a <= MaxInt64 && MinInt64 <= b <= MaxInt64
    requires MinInt64 <= c <= MaxInt64 && MinInt64 <= d <= MaxInt64
    ensures ParseAddr(Dotted(a, b, c, d)) == AddrOk(Pack(U32(a), U32(b), U32(c), U32(d)))
  {
    SplitDotted(a, b, c, d);
    AtoiItoa(a);
    AtoiItoa(b);
    AtoiItoa(c);
    AtoiItoa(d);
  }

  /** IpAddrToUInt32 inverts IpUInt32ToAddr on every 32-bit word. */
  lemma AddrRoundTrip(v: bv32)
    ensures ParseAddr(AddrText(v)) == AddrOk(v)
  {
    var o := Octets(v);
    ParseDotted(o[0] as int, o[1] as int, o[2] as int, o[3] as int);
    ByteWord(o[0]);
    ByteWord(o[1]);
    ByteWord(o[2]);
    ByteWord(o[3]);
    OctetsPack(v);
  }

  /** A field strconv.Atoi accepts. */
  predicate FieldOk(t: string)
  {
    IsDecimal(t) && MinInt64 <= DecimalValue(t) <= MaxInt64
  }

  /** The first n fields are all accepted by strconv.Atoi. */
  predicate LeadingFieldsOk(f: seq<string>, n: nat)
    requires n <= |f|
  {
    forall k :: 0 <= k < n ==> FieldOk(f[k])
  }

  lemma FieldsAtoi(f: seq<string>)
    ensures forall k :: 0 <= k < |f| && k < 4 ==> (Atoi(f[k]).Parsed? <==> FieldOk(f[k]))
    ensures forall k :: 0 <= k < |f| && k < 4 && FieldOk(f[k]) ==> Atoi(f[k]).value == DecimalValue(f[k])
  {
    forall k | 0 <= k < |f| && k < 4
      ensures Atoi(f[k]).Parsed? <==> FieldOk(f[k])
      ensures FieldOk(f[k]) ==> Atoi(f[k]).value == DecimalValue(f[k])
    {
      AtoiSpec(f[k]);
    }
  }

  /** IpAddrToUInt32 looks at the first four dot-separated fields only: it
      fails when one of those present is not a 64-bit decimal integer, panics
      when fewer than four are present and all are integers, and succeeds
      when the first four are integers. */
  lemma ParseAddrOutcome(s: string)
    ensures var f := Split(s, '.');
      && (ParseAddr(s) == AddrInvalid <==> !LeadingFieldsOk(f, if |f| < 4 then |f| else 4))
      && (ParseAddr(s) == AddrPanic <==> |f| < 4 && LeadingFieldsOk(f, |f|))
      && (ParseAddr(s).AddrOk? <==> 4 <= |f| && LeadingFieldsOk(f, 4))
  {
    var f := Split(s, '.');
    FieldsAtoi(f);
    if !FieldOk(f[0]) {
      assert ParseAddr(s) == AddrInvalid;
    } else if |f| < 2 {
      assert ParseAddr(s) == AddrPanic;
    } else if !FieldOk(f[1]) {
      assert ParseAddr(s) == AddrInvalid;
    } else if |f| < 3 {
      assert ParseAddr(s) == AddrPanic;
    } else if !FieldOk(f[2]) {
      assert ParseAddr(s) == AddrInvalid;
    } else if |f| < 4 {
      assert ParseAddr(s) == AddrPanic;
    } else if !FieldOk(f[3]) {
      assert ParseAddr(s) == AddrInvalid;
    } else {
      assert ParseAddr(s).AddrOk?;
    }
  }

  /** On success the word is the four leading field values, each truncated
      to 32 bits, packed most significant first. */
  lemma ParseAddrValue(s: string)
    requires ParseAddr(s).AddrOk?
    ensures var f := Split(s, '.');
      4 <= |f| && FieldOk(f[0]) && FieldOk(f[1]) && FieldOk(f[2]) && FieldOk(f[3])
      && ParseAddr(s).value
         == Pack(U32(DecimalValue(f[0])), U32(DecimalValue(f[1])), U32(DecimalValue(f[2])), U32(DecimalValue(f[3])))
  {
    FieldsAtoi(Split(s, '.'));
  }

  /** Fields after the fourth are never looked at. */
  lemma ExtraFieldsIgnored(s: string, rest: string)
    requires |Split(s, '.')| == 4
    ensures ParseAddr(s + "." + rest) == ParseAddr(s)
  {
    SplitJoin(s, '.', rest);
    assert s + "." + rest == s + ['.'] + rest;
  }

  /** t is the decimal digits of the byte b. */
  predicate DecimalByte(t: string, b: bv8)
  {
    t != [] && AllDigits(t) && DigitsValue(t) == b as int && DigitsValue(t) < 256
  }

  lemma ByteText(b: bv8)
    ensures DecimalByte(Itoa(b as int), b)
  {
    NatToDecimalValue(b as int);
  }

  /** IpUInt32ToAddr yields exactly four fields joined by three dots, each
      the decimal digits of one byte of v, most significant byte first. */
  lemma AddrTextFields(v: bv32)
    ensures var f := Split(AddrText(v), '.');
      && |f| == 4
      && (forall k :: 0 <= k < 4 ==> DecimalByte(f[k], Octets(v)[k]))
      && AddrText(v) == f[0] + "." + f[1] + "." + f[2] + "." + f[3]
  {
    var o := Octets(v);
    SplitDotted(o[0] as int, o[1] as int, o[2] as int, o[3] as int);
    ByteText(o[0]);
    ByteText(o[1]);
    ByteText(o[2]);
    ByteText(o[3]);
  }

  /** The conversion of uint32(3232235876) the daemon's tests check. */
  lemma AddrTextExample()
    ensures AddrText(3232235876) == "192.168.1.100"
  {
    assert Octets(3232235876) == [192, 168, 1, 100];
    assert Itoa(192) == "192";
    assert Itoa(168) == "168";
    assert Itoa(1) == "1";
    assert Itoa(100) == "100";
  }

  /** The parse of "192.168.1.100" the daemon's tests check. */
  lemma ParseAddrExample()
    ensures ParseAddr("192.168.1.100") == AddrOk(3232235876)
  {
    AddrTextExample();
    AddrRoundTrip(3232235876);
  }

  /** A field above 255 is OR-ed into the higher bytes: "0.0.0.256" and
      "0.0.1.0" both parse to 256. */
  lemma ByteOverflowExample()
    ensures ParseAddr("0.0.0.256") == AddrOk(256)
    ensures ParseAddr("0.0.1.0") == AddrOk(256)
  {
    assert Itoa(0) == "0";
    assert Itoa(1) == "1";
    assert Itoa(256) == "256";
    assert Dotted(0, 0, 0, 256) == "0.0.0.256";
    assert Dotted(0, 0, 1, 0) == "0.0.1.0";
    ParseDotted(0, 0, 0, 256);
    ParseDotted(0, 0, 1, 0);
    SmallWords();
  }

  lemma SmallWords()
    ensures U32(0) == 0 && U32(1) == 1 && U32(256) == 256
    ensures Pack(0, 0, 0, 256) == 256 && Pack(0, 0, 1, 0) == 256
  {
    SmallWord(0);
    SmallWord(1);
    SmallWord(256);
  }
}
