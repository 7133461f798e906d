/** IPv4 addresses and their dotted-quad text.

    An address is a number below 2^32. The text form follows Go's `netip`
    parser for IPv4: exactly four fields separated by '.', each a canonical
    decimal numeral no greater than 255. `parseIp` (route.go) converts text
    to a 4-byte address the same way. */
module Ipv4 {
  import opened Options
  import Decimal

  const AddrSpace: int := 0x1_0000_0000

  type Addr = x: int | 0 <= x < AddrSpace

  /** The pieces of s between occurrences of sep, as Go's `strings.Split`
      cuts them (always at least one piece). */
  function Split(s: string, sep: char): (r: seq<string>)
    ensures |r| >= 1
  {
    if s == [] then [""]
    else
      var rest := Split(s[1..], sep);
      if s[0] == sep then [""] + rest else [[s[0]] + rest[0]] + rest[1..]
  }

  function Join(pieces: seq<string>, sep: char): string
    requires |pieces| >= 1
  {
    if |pieces| == 1 then pieces[0] else pieces[0] + [sep] + Join(pieces[1..], sep)
  }

  lemma {:induction false} JoinSplit(s: string, sep: char)
    ensures Join(Split(s, sep), sep) == s
  {
    if s != [] {
      var rest := Split(s[1..], sep);
      JoinSplit(s[1..], sep);
      if s[0] != sep {
        var r := Split(s, sep);
        assert r[1..] == rest[1..];
        if |rest| > 1 {
          assert Join(rest, sep) == rest[0] + [sep] + Join(rest[1..], sep);
        }
      }
    }
  }

  /** Splitting at a separator that the first piece does not contain. */
  lemma {:induction false} SplitCons(x: string, sep: char, y: string)
    requires sep !in x
    ensures Split(x + [sep] + y, sep) == [x] + Split(y, sep)
  {
    var s := x + [sep] + y;
    if x != [] {
      assert s[0] == x[0] && s[1..] == x[1..] + [sep] + y;
      SplitCons(x[1..], sep, y);
      assert [x[0]] + x[1..] == x;
    } else {
      assert s[0] == sep && s[1..] == y;
    }
  }

  lemma {:induction false} SplitNone(x: string, sep: char)
    requires sep !in x
    ensures Split(x, sep) == [x]
  {
    if x != [] {
      SplitNone(x[1..], sep);
      assert [x[0]] + x[1..] == x;
    }
  }

  /** Splitting the joined pieces gives the pieces back when none of them
      contains the separator. */
  lemma {:induction false} SplitJoin(pieces: seq<string>, sep: char)
    requires |pieces| >= 1
    requires forall i :: 0 <= i < |pieces| ==> sep !in pieces[i]
    ensures Split(Join(pieces, sep), sep) == pieces
  {
    if |pieces| == 1 {
      SplitNone(pieces[0], sep);
    } else {
      SplitJoin(pieces[1..], sep);
      SplitCons(pieces[0], sep, Join(pieces[1..], sep));
      assert [pieces[0]] + pieces[1..] == pieces;
    }
  }

  /** One field of a dotted quad: a canonical numeral in 0..255. */
  function ParseOctet(field: string): Option<nat> {
    match Decimal.Parse(field)
    case Some(v) => if v <= 255 then Some(v) else None
    case None => None
  }

  function FromOctets(a: nat, b: nat, c: nat, d: nat): Addr
    requires a <= 255 && b <= 255 && c <= 255 && d <= 255
  {
    ((a * 0x100 + b) * 0x100 + c) * 0x100 + d
  }

  /** Dotted-quad text to address; None for anything that is not IPv4 text. */
  function ParseAddr(s: string): Option<Addr> {
    var f := Split(s, '.');
    if |f| != 4 then None
    else
      match (ParseOctet(f[0]), ParseOctet(f[1]), ParseOctet(f[2]), ParseOctet(f[3]))
      case (Some(a), Some(b), Some(c), Some(d)) => Some(FromOctets(a, b, c, d))
      case _ => None
  }

  /** The octets of an address, most significant first. */
  function Octets(x: Addr): (o: seq<nat>)
    ensures |o| == 4 && o[0] <= 255 && o[1] <= 255 && o[2] <= 255 && o[3] <= 255
    ensures x == FromOctets(o[0], o[1], o[2], o[3])
  {
    var q1 := x / 0x100;
    var q2 := q1 / 0x100;
    [q2 / 0x100, q2 % 0x100, q1 % 0x100, x % 0x100]
  }

  lemma OctetsOfFromOctets(a: nat, b: nat, c: nat, d: nat)
    requires a <= 255 && b <= 255 && c <= 255 && d <= 255
    ensures Octets(FromOctets(a, b, c, d)) == [a, b, c, d]
  {
  }

  function OctetTexts(x: Addr): (t: seq<string>)
    ensures |t| == 4
  {
    var o := Octets(x);
    [Decimal.Format(o[0]), Decimal.Format(o[1]), Decimal.Format(o[2]), Decimal.Format(o[3])]
  }

  /** Address to dotted-quad text, as Go's `String()` writes an IPv4 address. */
  function FormatAddr(x: Addr): string {
    Join(OctetTexts(x), '.')
  }

  lemma Join4(a: string, b: string, c: string, d: string, sep: char)
    ensures Join([a, b, c, d], sep) == a + [sep] + b + [sep] + c + [sep] + d
  {
    var t := [a, b, c, d];
    assert t[1..] == [b, c, d] && t[2..] == [c, d] && t[3..] == [d];
    assert Join([d], sep) == d;
    assert Join([c, d], sep) == c + [sep] + d;
    assert Join([b, c, d], sep) == b + [sep] + (c + [sep] + d);
  }

  /** The text of an address given by its four octets. */
  lemma FormatAddrOctets(a: nat, b: nat, c: nat, d: nat)
    requires a <= 255 && b <= 255 && c <= 255 && d <= 255
    ensures FormatAddr(FromOctets(a, b, c, d)) ==
      Decimal.Format(a) + "." + Decimal.Format(b) + "." + Decimal.Format(c) + "." + Decimal.Format(d)
  {
    OctetsOfFromOctets(a, b, c, d);
    Join4(Decimal.Format(a), Decimal.Format(b), Decimal.Format(c), Decimal.Format(d), '.');
  }

  lemma DigitsHaveNoSeparator(n: nat, sep: char)
    requires !Decimal.IsDigit(sep)
    ensures sep !in Decimal.Format(n)
  {
  }

  /** Formatting an address and parsing the text gives the address back. */
  lemma ParseFormatAddr(x: Addr)
    ensures ParseAddr(FormatAddr(x)) == Some(x)
  {
    var o := Octets(x);
    var t := OctetTexts(x);
    forall i | 0 <= i < 4 ensures '.' !in t[i] {
      DigitsHaveNoSeparator(o[i], '.');
    }
    SplitJoin(t, '.');
    Decimal.ParseFormat(o[0]);
    Decimal.ParseFormat(o[1]);
    Decimal.ParseFormat(o[2]);
    Decimal.ParseFormat(o[3]);
  }

  /** Text that parses is exactly the text FormatAddr writes for its address. */
  lemma FormatParseAddr(s: string, x: Addr)
    requires ParseAddr(s) == Some(x)
    ensures FormatAddr(x) == s
  {
    var f := Split(s, '.');
    var a, b, c, d := ParseOctet(f[0]).value, ParseOctet(f[1]).value, ParseOctet(f[2]).value, ParseOctet(f[3]).value;
    assert x == FromOctets(a, b, c, d);
    OctetsOfFromOctets(a, b, c, d);
    Decimal.FormatParse(f[0]);
    Decimal.FormatParse(f[1]);
    Decimal.FormatParse(f[2]);
    Decimal.FormatParse(f[3]);
    assert OctetTexts(x) == f;
    JoinSplit(s, '.');
  }

  /** The text of two addresses is the same exactly when they are the same. */
  lemma FormatAddrInjective(x: Addr, y: Addr)
    ensures FormatAddr(x) == FormatAddr(y) <==> x == y
  {
    ParseFormatAddr(x);
    ParseFormatAddr(y);
  }

  /** parseIp (route.go:23-29): stands in for `net.ParseIP(s).To4()`, the
      4-byte form of an address given as text, or an error ("cannot parse
      IP"). Only IPv4 dotted quads are modelled; it is only ever applied to
      the canonical text of an address (route.go:160). */
  function ParseIp(s: string): Option<Addr> {
    ParseAddr(s)
  }

  /** `ip.To4().String()` for an optional IPv4 address: its dotted quad, and
      Go's "<nil>" when there is no address (a route without a gateway). */
  function IpText(ip: Option<Addr>): string {
    match ip
    case Some(x) => FormatAddr(x)
    case None => "<nil>"
  }

  /** The text of an optional address equals a valid dotted quad exactly when
      the address is present and is the one that text denotes; text that is
      not a valid dotted quad (other than "<nil>") never equals it. */
  lemma IpTextMatches(ip: Option<Addr>, expected: string)
    ensures ParseAddr(expected).Some? ==> (IpText(ip) == expected <==> ip == ParseAddr(expected))
    ensures ParseAddr(expected).None? && expected != "<nil>" ==> IpText(ip) != expected
  {
    match ip
    case Some(x) =>
      ParseFormatAddr(x);
      if ParseAddr(expected).Some? && ip == ParseAddr(expected) {
        FormatParseAddr(expected, x);
      }
    case None =>
      SplitNone("<nil>", '.');
  }
}
