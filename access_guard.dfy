/**
  The allowlist check of the search handler (isIPInRange): a caller's IPv4
  address against the configured CIDR ranges.  Range strings and the address
  string are taken as already parsed: a range that net.ParseCIDR rejects is
  `None`, and so is an address that net.ParseIP rejects.
 */
module AccessGuard {
  import opened Wrappers

  /** An IPv4 address as its 32-bit value, first octet most significant. */
  type IPv4 = x: int | 0 <= x < 0x1_0000_0000

  type PrefixLen = n: int | 0 <= n <= 32

  /** A parsed CIDR range: a base address and a prefix length. */
  datatype Cidr = Cidr(base: IPv4, len: PrefixLen)

  function Pow2(n: nat): (r: nat)
    ensures r > 0
  {
    if n == 0 then 1 else 2 * Pow2(n - 1)
  }

  /** The top `len` bits of an address: its network number in a /len range. */
  function NetworkBits(ip: IPv4, len: PrefixLen): int {
    ip / Pow2(32 - len)
  }

  /**
    Containment in a range (section 3.1 of RFC 4632): the top `len` bits of the
    address equal those of the base.  The host bits of the base do not matter,
    just as net.ParseCIDR masks them away.
   */
  predicate InRange(c: Cidr, ip: IPv4)
    ensures ip == c.base ==> InRange(c, ip)
  {
    NetworkBits(ip, c.len) == NetworkBits(c.base, c.len)
  }

  /** IPNet.Contains for a parsed range: an unparsable address is never contained. */
  predicate Hits(c: Cidr, ip: Option<IPv4>)
    ensures Hits(c, ip) ==> ip.Some?
    ensures ip == Some(c.base) ==> Hits(c, ip)
  {
    ip.Some? && InRange(c, ip.value)
  }

  /**
    What isIPInRange does: Allowed on the first range that contains the
    address, Denied when none does, and Panicked when it reaches a range
    that failed to parse before any hit (the nil *IPNet is dereferenced).
   */
  datatype Verdict = Allowed | Denied | Panicked

  function Check(ip: Option<IPv4>, ranges: seq<Option<Cidr>>): Verdict
    decreases |ranges|
  {
    if ranges == [] then Denied
    else match ranges[0]
      case None => Panicked
      case Some(c) => if Hits(c, ip) then Allowed else Check(ip, ranges[1..])
  }

  /** The short-circuit loop of isIPInRange. */
  method IsIPInRange(ip: Option<IPv4>, ranges: seq<Option<Cidr>>) returns (v: Verdict)
    ensures v == Check(ip, ranges)
  {
    for i := 0 to |ranges|
      invariant Check(ip, ranges) == Check(ip, ranges[i..])
    {
      assert ranges[i..][1..] == ranges[i + 1..];
      if ranges[i].None? {
        return Panicked;
      }
      if Hits(ranges[i].value, ip) {
        return Allowed;
      }
    }
    return Denied;
  }

  /** All ranges parsed, so the loop cannot dereference a nil network. */
  predicate AllParsed(ranges: seq<Option<Cidr>>) {
    forall i :: 0 <= i < |ranges| ==> ranges[i].Some?
  }

  /**
    The index of the first range at which the loop stops: one that failed to
    parse or one that contains the address (`|ranges|` when there is none).
   */
  function FirstStop(ip: Option<IPv4>, ranges: seq<Option<Cidr>>): (k: nat)
    ensures k <= |ranges|
    ensures forall j :: 0 <= j < k ==> ranges[j].Some? && !Hits(ranges[j].value, ip)
    ensures k < |ranges| ==> ranges[k].None? || Hits(ranges[k].value, ip)
    decreases |ranges|
  {
    if ranges == [] then 0
    else if ranges[0].None? || Hits(ranges[0].value, ip) then 0
    else 1 + FirstStop(ip, ranges[1..])
  }

  /** The verdict is read off the first stopping range. */
  lemma {:induction false} CheckAtFirstStop(ip: Option<IPv4>, ranges: seq<Option<Cidr>>)
    ensures var k := FirstStop(ip, ranges);
      Check(ip, ranges) ==
        if k == |ranges| then Denied else if ranges[k].None? then Panicked else Allowed
    decreases |ranges|
  {
    if ranges != [] && ranges[0].Some? && !Hits(ranges[0].value, ip) {
      CheckAtFirstStop(ip, ranges[1..]);
    }
  }

  /** Allowed iff some range contains the address and every range before it parsed. */
  lemma AllowedCase(ip: Option<IPv4>, ranges: seq<Option<Cidr>>)
    ensures Check(ip, ranges) == Allowed <==>
      exists i :: 0 <= i < |ranges| && ranges[i].Some? && Hits(ranges[i].value, ip) &&
        AllParsed(ranges[..i])
  {
    CheckAtFirstStop(ip, ranges);
    var k := FirstStop(ip, ranges);
    if Check(ip, ranges) == Allowed {
      assert AllParsed(ranges[..k]);
    }
    if exists i :: 0 <= i < |ranges| && ranges[i].Some? && Hits(ranges[i].value, ip) &&
        AllParsed(ranges[..i]) {
      var i :| 0 <= i < |ranges| && ranges[i].Some? && Hits(ranges[i].value, ip) &&
        AllParsed(ranges[..i]);
      assert k <= i;
      if k < i {
        assert ranges[..i][k] == ranges[k];
      }
    }
  }

  /** Panicked iff some range failed to parse and no range before it contains the address. */
  lemma PanickedCase(ip: Option<IPv4>, ranges: seq<Option<Cidr>>)
    ensures Check(ip, ranges) == Panicked <==>
      exists i :: 0 <= i < |ranges| && ranges[i].None? &&
        forall j :: 0 <= j < i ==> ranges[j].Some? && !Hits(ranges[j].value, ip)
  {
    CheckAtFirstStop(ip, ranges);
    var k := FirstStop(ip, ranges);
    if exists i :: 0 <= i < |ranges| && ranges[i].None? &&
        forall j :: 0 <= j < i ==> ranges[j].Some? && !Hits(ranges[j].value, ip) {
      var i :| 0 <= i < |ranges| && ranges[i].None? &&
        forall j :: 0 <= j < i ==> ranges[j].Some? && !Hits(ranges[j].value, ip);
      assert k == i;
    }
  }

  /** Denied iff every range parsed and none contains the address. */
  lemma DeniedCase(ip: Option<IPv4>, ranges: seq<Option<Cidr>>)
    ensures Check(ip, ranges) == Denied <==>
      AllParsed(ranges) && forall i :: 0 <= i < |ranges| ==> !Hits(ranges[i].value, ip)
  {
    CheckAtFirstStop(ip, ranges);
  }

  /**
    When every range parses, the check is the OR of containment over the
    list: Allowed iff some range contains the address, otherwise Denied.
   */
  lemma AllParsedIsDisjunction(ip: Option<IPv4>, ranges: seq<Option<Cidr>>)
    requires AllParsed(ranges)
    ensures Check(ip, ranges) != Panicked
    ensures Check(ip, ranges) == Allowed <==>
      exists i :: 0 <= i < |ranges| && Hits(ranges[i].value, ip)
  {
    AllowedCase(ip, ranges);
    DeniedCase(ip, ranges);
    if exists i :: 0 <= i < |ranges| && Hits(ranges[i].value, ip) {
      var i :| 0 <= i < |ranges| && Hits(ranges[i].value, ip);
      assert AllParsed(ranges[..i]);
    }
  }

  /** An address that does not parse is never allowed. */
  lemma UnparsedAddressNeverAllowed(ranges: seq<Option<Cidr>>)
    ensures Check(None, ranges) != Allowed
  {
    AllowedCase(None, ranges);
  }

  /**
    Reordering well-formed ranges changes only which range short-circuits,
    never the verdict.
   */
  lemma CheckOrderIrrelevant(ip: Option<IPv4>, ranges: seq<Option<Cidr>>, other: seq<Option<Cidr>>)
    requires AllParsed(ranges)
    requires multiset(ranges) == multiset(other)
    ensures Check(ip, ranges) == Check(ip, other)
  {
    forall j | 0 <= j < |other| ensures other[j].Some? {
      assert other[j] in multiset(other);
      assert other[j] in ranges;
    }
    AllParsedIsDisjunction(ip, ranges);
    AllParsedIsDisjunction(ip, other);
    if exists i :: 0 <= i < |ranges| && Hits(ranges[i].value, ip) {
      var i :| 0 <= i < |ranges| && Hits(ranges[i].value, ip);
      assert ranges[i] in multiset(ranges);
      assert ranges[i] in other;
      var j :| 0 <= j < |other| && other[j] == ranges[i];
      assert Hits(other[j].value, ip);
    }
    if exists j :: 0 <= j < |other| && Hits(other[j].value, ip) {
      var j :| 0 <= j < |other| && Hits(other[j].value, ip);
      assert other[j] in multiset(other);
      assert other[j] in ranges;
      var i :| 0 <= i < |ranges| && ranges[i] == other[j];
      assert Hits(ranges[i].value, ip);
    }
  }

  /** Halving the network number drops the last bit of the prefix. */
  lemma NetworkBitsShorter(ip: IPv4, len: PrefixLen)
    requires len > 0
    ensures NetworkBits(ip, len - 1) == NetworkBits(ip, len) / 2
  {
    var d := Pow2(32 - len);
    assert Pow2(32 - (len - 1)) == 2 * d;
    DivHalf(ip, d);
  }

  /** Dividing by 2d is dividing by d, then by 2. */
  lemma DivHalf(x: nat, d: nat)
    requires d > 0
    ensures x / (2 * d) == (x / d) / 2
  {
    var q, r := x / d, x % d;
    var q2, r2 := q / 2, q % 2;
    assert x == q * d + r && 0 <= r < d;
    if r2 == 0 {
      assert q == 2 * q2;
      MulAssoc(2, q2, d);
      assert x == q2 * (2 * d) + r;
      DivUnique(x, 2 * d, q2, r);
    } else {
      assert q == 2 * q2 + 1;
      MulSucc(2 * q2, d);
      MulAssoc(2, q2, d);
      assert x == q2 * (2 * d) + (d + r);
      DivUnique(x, 2 * d, q2, d + r);
    }
  }

  lemma MulAssoc(a: int, b: int, c: int)
    ensures (a * b) * c == b * (a * c)
  {
  }

  lemma MulSucc(a: int, d: int)
    ensures (a + 1) * d == a * d + d
  {
  }

  lemma DivUnique(x: int, d: int, q: int, r: int)
    requires d > 0 && 0 <= r < d && x == q * d + r
    ensures x / d == q
  {
    var q', r' := x / d, x % d;
    assert x == q' * d + r' && 0 <= r' < d;
    assert (q - q') * d == r' - r;
    if q > q' {
      MulAtLeast(q - q', d);
    } else if q < q' {
      MulAtLeast(q' - q, d);
    }
  }

  lemma MulAtLeast(a: int, d: int)
    requires a >= 1 && d > 0
    ensures a * d >= d
  {
  }

  lemma {:induction false} Pow2Add(a: nat, b: nat)
    ensures Pow2(a + b) == Pow2(a) * Pow2(b)
    decreases a
  {
    if a > 0 {
      Pow2Add(a - 1, b);
    }
  }

  /** A range contains every address of any longer-prefix range it shares a base with. */
  lemma {:induction false} InRangeShorterPrefix(c: Cidr, ip: IPv4, len: PrefixLen)
    requires InRange(c, ip) && len <= c.len
    ensures InRange(Cidr(c.base, len), ip)
    decreases c.len - len
  {
    if len < c.len {
      NetworkBitsShorter(ip, c.len);
      NetworkBitsShorter(c.base, c.len);
      InRangeShorterPrefix(Cidr(c.base, c.len - 1), ip, len);
    }
  }

  /** A /0 range contains every address; a /32 range contains its base alone. */
  lemma InRangeExtremes(base: IPv4, ip: IPv4)
    ensures InRange(Cidr(base, 0), ip)
    ensures InRange(Cidr(base, 32), ip) <==> ip == base
  {
    Pow2Of32();
    assert NetworkBits(ip, 0) == 0 && NetworkBits(base, 0) == 0;
    assert Pow2(0) == 1;
    assert NetworkBits(ip, 32) == ip && NetworkBits(base, 32) == base;
  }

  /** 2^32 is the size of the IPv4 address space. */
  lemma Pow2Of32()
    ensures Pow2(32) == 0x1_0000_0000
  {
    assert Pow2(4) == 16;
    Pow2Add(4, 4);
    Pow2Add(8, 8);
    Pow2Add(16, 16);
  }
}
