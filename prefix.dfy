/** IPv4 prefixes ("a.b.c.d/n") and their expansion into every address they
    cover: `getCidrIps` in route.go, with Go's `netip.ParsePrefix`,
    `Prefix.Masked`, `Prefix.Contains` and `Addr.Next` on the IPv4 subset. */
module Prefixes {
  import opened Options
  import Decimal
  import opened Ipv4

  type Bits = n: int | 0 <= n <= 32

  datatype Prefix = Prefix(addr: Addr, bits: Bits)

  function Pow2(n: nat): (r: nat)
    ensures r >= 1
  {
    if n == 0 then 1 else 2 * Pow2(n - 1)
  }

  lemma {:induction false} Pow2Add(m: nat, n: nat)
    ensures Pow2(m + n) == Pow2(m) * Pow2(n)
  {
    if m > 0 {
      Pow2Add(m - 1, n);
      assert Pow2(m + n) == 2 * Pow2(m - 1 + n);
    }
  }

  lemma Pow2Of32()
    ensures Pow2(32) == AddrSpace
  {
    assert Pow2(8) == 0x100;
    assert Pow2(16) == 0x1_0000;
    assert Pow2(24) == 0x100_0000;
  }

  /** Number of addresses in a prefix of the given length: 2^(32 - bits). */
  function BlockSize(bits: Bits): (b: nat)
    ensures b >= 1
  {
    Pow2(32 - bits)
  }

  lemma MulMonotone(a: int, b: int, c: int)
    requires a <= b && c >= 0
    ensures a * c <= b * c
  {
    assert (b - a) * c >= 0;
  }

  lemma MulDistrib(a: int, b: int, c: int)
    ensures (a - b) * c == a * c - b * c
  {
  }

  /** Euclidean division is determined by quotient and remainder. */
  lemma DivModUnique(x: int, b: int, q: int, r: int)
    requires b > 0 && 0 <= r < b && x == q * b + r
    ensures x / b == q && x % b == r
  {
    var q', r' := x / b, x % b;
    assert x == q' * b + r';
    MulDistrib(q', q, b);
    if q' > q {
      MulMonotone(1, q' - q, b);
    } else if q' < q {
      MulDistrib(q, q', b);
      MulMonotone(1, q - q', b);
    }
  }

  /** The multiple of b at or below a, for 0 <= a < n * b. */
  lemma AlignedBlock(a: int, b: int, n: int)
    requires b > 0 && n > 0 && 0 <= a < n * b
    ensures 0 <= (a / b) * b <= a < (a / b) * b + b <= n * b
    ensures ((a / b) * b) % b == 0
  {
    var q := a / b;
    assert a == q * b + a % b;
    if q >= n {
      MulMonotone(n, q, b);
    }
    MulMonotone(q + 1, n, b);
    MulDistrib(q + 1, 1, b);
    MulMonotone(0, q, b);
    DivModUnique(q * b, b, q, 0);
  }

  /** The aligned block holding an address lies inside the address space. */
  lemma BlockFits(p: Prefix)
    ensures 0 <= (p.addr / BlockSize(p.bits)) * BlockSize(p.bits) <= p.addr
    ensures p.addr < (p.addr / BlockSize(p.bits)) * BlockSize(p.bits) + BlockSize(p.bits) <= AddrSpace
    ensures ((p.addr / BlockSize(p.bits)) * BlockSize(p.bits)) % BlockSize(p.bits) == 0
  {
    Pow2Add(p.bits, 32 - p.bits);
    Pow2Of32();
    AlignedBlock(p.addr, BlockSize(p.bits), Pow2(p.bits));
  }

  /** The network address: the prefix's address with its host bits cleared,
      that is, the start of the aligned block that holds the address. */
  function Network(p: Prefix): (n: Addr)
    ensures n % BlockSize(p.bits) == 0
    ensures n <= p.addr < n + BlockSize(p.bits) <= AddrSpace
  {
    BlockFits(p);
    (p.addr / BlockSize(p.bits)) * BlockSize(p.bits)
  }

  /** `Prefix.Masked`: the same prefix with its host bits cleared. */
  function Masked(p: Prefix): Prefix {
    Prefix(Network(p), p.bits)
  }

  /** `Prefix.Contains`: x is a valid address whose leading `bits` bits are
      those of the prefix. Go's `Addr.Next` on the last address gives an
      invalid address, which no prefix contains; here that is 2^32. */
  predicate InPrefix(p: Prefix, x: int) {
    0 <= x < AddrSpace && x / BlockSize(p.bits) == p.addr / BlockSize(p.bits)
  }

  /** x has quotient q by b exactly when x lies in [q * b, q * b + b). */
  lemma SameQuotient(x: int, b: int, q: int)
    requires b > 0
    ensures x / b == q <==> q * b <= x < q * b + b
  {
    if q * b <= x < q * b + b {
      DivModUnique(x, b, q, x - q * b);
    }
    if x / b == q {
      assert x == q * b + x % b;
    }
  }

  /** A prefix holds exactly the addresses of its aligned block. */
  lemma InPrefixRange(p: Prefix, x: int)
    ensures InPrefix(p, x) <==> 0 <= x && Network(p) <= x < Network(p) + BlockSize(p.bits)
  {
    SameQuotient(x, BlockSize(p.bits), p.addr / BlockSize(p.bits));
  }

  /** Masking keeps the network address and the addresses covered. */
  lemma MaskedSameNetwork(p: Prefix)
    ensures Network(Masked(p)) == Masked(p).addr == Network(p)
    ensures forall x :: InPrefix(Masked(p), x) <==> InPrefix(p, x)
  {
    var b := BlockSize(p.bits);
    DivModUnique(Network(p), b, p.addr / b, 0);
    forall x ensures InPrefix(Masked(p), x) <==> InPrefix(p, x) {
      InPrefixRange(p, x);
      InPrefixRange(Masked(p), x);
    }
  }

  /** The addresses of a prefix, from the network address up to the
      broadcast address, both included. */
  function Block(p: Prefix): seq<Addr> {
    seq(BlockSize(p.bits), i requires 0 <= i < BlockSize(p.bits) => BlockAt(p, i))
  }

  function BlockAt(p: Prefix, i: nat): Addr
    requires i < BlockSize(p.bits)
  {
    Network(p) + i
  }

  /** Every promise about the expansion of a prefix /n: 2^(32-n) addresses,
      strictly ascending, from the network address to the broadcast address,
      holding exactly the addresses the prefix contains. */
  lemma BlockIsPrefixContents(p: Prefix)
    ensures |Block(p)| == Pow2(32 - p.bits)
    ensures Block(p)[0] == Network(p)
    ensures Block(p)[|Block(p)| - 1] == Network(p) + Pow2(32 - p.bits) - 1
    ensures forall i, j :: 0 <= i < j < |Block(p)| ==> Block(p)[i] < Block(p)[j]
    ensures forall x :: x in Block(p) <==> InPrefix(p, x)
  {
    forall x ensures x in Block(p) <==> InPrefix(p, x) {
      InPrefixRange(p, x);
      if InPrefix(p, x) {
        assert Block(p)[x - Network(p)] == x;
      }
    }
  }

  /** A /32 prefix covers its own address and nothing else. */
  lemma SingleAddressBlock(p: Prefix)
    requires p.bits == 32
    ensures Block(p) == [p.addr]
  {
    assert BlockSize(32) == 1;
    DivModUnique(p.addr, 1, p.addr, 0);
  }

  function LastIndexOf(s: string, c: char): (i: nat)
    requires c in s
    ensures i < |s| && s[i] == c && c !in s[i + 1..]
  {
    if s[|s| - 1] == c then |s| - 1 else LastIndexOf(s[..|s| - 1], c)
  }

  /** `netip.ParsePrefix` on IPv4 text: the address before the last '/', and
      after it a canonical decimal length no greater than 32. */
  function ParsePrefix(s: string): Option<Prefix> {
    if '/' !in s then None
    else
      var i := LastIndexOf(s, '/');
      match (ParseAddr(s[..i]), Decimal.Parse(s[i + 1..]))
      case (Some(a), Some(n)) => if n <= 32 then Some(Prefix(a, n)) else None
      case _ => None
  }

  /** Parsing text "x/y" whose length part y holds no '/'. */
  lemma ParsePrefixSplit(x: string, y: string)
    requires '/' !in y
    ensures ParsePrefix(x + "/" + y) ==
      match (ParseAddr(x), Decimal.Parse(y))
      case (Some(a), Some(n)) => if n <= 32 then Some(Prefix(a, n)) else None
      case _ => None
  {
    var s := x + "/" + y;
    assert s[|x|] == '/';
    var i := LastIndexOf(s, '/');
    assert i == |x|;
    assert s[..i] == x && s[i + 1..] == y;
  }

  /** A prefix written out as text parses back to itself. */
  lemma ParsePrefixFormat(a: Addr, n: Bits)
    ensures ParsePrefix(FormatAddr(a) + "/" + Decimal.Format(n)) == Some(Prefix(a, n))
  {
    ParsePrefixSplit(FormatAddr(a), Decimal.Format(n));
    ParseFormatAddr(a);
    Decimal.ParseFormat(n);
  }

  /** Appending "/32" to text without '/' makes a one-address prefix exactly
      when the text is a valid address. */
  lemma ParseBareAddress(s: string)
    requires '/' !in s
    ensures ParsePrefix(s + "/32") ==
      match ParseAddr(s)
      case Some(a) => Some(Prefix(a, 32))
      case None => None
  {
    assert Decimal.Format(32) == "32";
    assert s + "/32" == s + "/" + "32";
    ParsePrefixSplit(s, "32");
    Decimal.ParseFormat(32);
  }

  /** Masking a prefix does not change the addresses it expands to. */
  lemma BlockOfMasked(p: Prefix)
    ensures Masked(p).addr == Network(Masked(p))
    ensures Block(Masked(p)) == Block(p)
  {
    MaskedSameNetwork(p);
  }

  /** The expansion read up to its k-th address. */
  lemma BlockGrow(p: Prefix, k: nat)
    requires k < BlockSize(p.bits)
    ensures Block(p)[..k + 1] == Block(p)[..k] + [Network(p) + k]
  {
  }

  /** getCidrIps (route.go:31-47): the addresses of the prefix the text
      denotes, or an error when it does not parse. */
  method CidrIps(ipCidr: string) returns (ips: Option<seq<Addr>>)
    ensures ParsePrefix(ipCidr).None? ==> ips.None?
    ensures ParsePrefix(ipCidr).Some? ==> ips == Some(Block(ParsePrefix(ipCidr).value))
  {
    var parsed := ParsePrefix(ipCidr);
    if parsed.None? {
      return None;
    }
    var p := Masked(parsed.value);
    BlockOfMasked(parsed.value);
    var addr: int := p.addr;
    var acc: seq<Addr> := [];
    while true
      invariant p.addr <= addr <= p.addr + BlockSize(p.bits)
      invariant acc == Block(p)[..addr - p.addr]
      decreases AddrSpace - addr
    {
      InPrefixRange(p, addr);
      if !InPrefix(p, addr) {
        break;
      }
      BlockGrow(p, addr - p.addr);
      acc := acc + [addr];
      addr := addr + 1;
    }
    InPrefixRange(p, addr);
    assert Block(p)[..addr - p.addr] == Block(p);
    return Some(acc);
  }

  lemma TenDots(t: string, z: string)
    requires t == "10" && z == "0"
    ensures t + "." + z + "." + z + "." + z == "10.0.0.0"
  {
    var u := t + ".";
    assert u == "10.";
    u := u + z;
    assert u == "10.0";
    u := u + "." + z;
    assert u == "10.0.0";
  }

  /** The text of the address with octets 10, 0, 0, 0. */
  lemma TenText(ten: nat, zero: nat, x: Addr)
    requires ten == 10 && zero == 0 && x == FromOctets(ten, zero, zero, zero)
    ensures FormatAddr(x) == "10.0.0.0"
  {
    FormatAddrOctets(ten, zero, zero, zero);
    assert Decimal.Format(1) == "1";
    TenDots(Decimal.Format(ten), Decimal.Format(zero));
  }

  /** The repository's test of getCidrIps (route_test.go): "10.0.0.0/24"
      parses and covers the 256 addresses 10.0.0.0 through 10.0.0.255. */
  lemma TenSlash24(s: string)
    requires s == "10.0.0.0/24"
    ensures ParsePrefix(s) == Some(Prefix(0x0A00_0000, 24))
    ensures |Block(Prefix(0x0A00_0000, 24))| == 256
    ensures Block(Prefix(0x0A00_0000, 24))[0] == 0x0A00_0000
    ensures Block(Prefix(0x0A00_0000, 24))[255] == 0x0A00_00FF
  {
    var ten, zero, len := 10, 0, 24;
    var x := FromOctets(ten, zero, zero, zero);
    TenText(ten, zero, x);
    assert Decimal.Format(2) == "2";
    assert Decimal.Format(len) == "24";
    var u := FormatAddr(x) + "/";
    assert u == "10.0.0.0/";
    assert s == u + Decimal.Format(len);
    ParsePrefixFormat(x, len);
    TenSlash24Block();
  }

  lemma TenSlash24Block()
    ensures |Block(Prefix(0x0A00_0000, 24))| == 256
    ensures Block(Prefix(0x0A00_0000, 24))[0] == 0x0A00_0000
    ensures Block(Prefix(0x0A00_0000, 24))[255] == 0x0A00_00FF
  {
    var p := Prefix(0x0A00_0000, 24);
    assert Pow2(4) == 16;
    assert BlockSize(24) == 256;
    DivModUnique(0x0A00_0000, 256, 0x0A_0000, 0);
    assert Network(p) == 0x0A00_0000;
  }
}
