/** The parts of Python's `ipaddress` module that the validator calls:
    `IPv4Address(text)`, `IPv4Network(text, strict=False)`, the order on
    addresses and `address in network`. A constructor that raises
    `ValueError` (`AddressValueError`, `NetmaskValueError`) gives `None`.
    An address is its integer value `int(address)`, below 2^32, and the
    order on addresses is the order on those integers. */
module IpAddress {
  import opened PyText

  type Octet = n: nat | n <= 255
  type PrefixLen = n: nat | n <= 32

  /** `int(address)` of an `IPv4Address`. */
  type Address = n: nat | n < 0x1_0000_0000

  /** `int.from_bytes([a, b, c, d], 'big')` */
  function FromOctets(a: Octet, b: Octet, c: Octet, d: Octet): Address {
    a * 0x100_0000 + b * 0x1_0000 + c * 0x100 + d
  }

  /** The dotted-decimal text of four octets. */
  function DottedQuad(a: Octet, b: Octet, c: Octet, d: Octet): string {
    NatText(a) + "." + NatText(b) + "." + NatText(c) + "." + NatText(d)
  }

  /** `_parse_octet` as in CPython 3.9.5 and later (and 3.8.12): one to three
      ASCII digits, no leading zero unless the octet is "0", value at most
      255. Earlier interpreters accepted leading zeros. */
  function ParseOctet(o: string): Option<Octet> {
    if o == "" then None
    else if !IsDecimal(o) then None
    else if |o| > 3 then None
    else if o != "0" && o[0] == '0' then None
    else if DecimalValue(o) > 255 then None
    else Some(DecimalValue(o))
  }

  /** An octet text is accepted exactly when it is the decimal text of its
      value. */
  lemma ParseOctetExactly(o: string, n: Octet)
    ensures ParseOctet(o) == Some(n) <==> o == NatText(n)
  {
    if ParseOctet(o) == Some(n) {
      CanonicalDecimal(o);
    }
    if o == NatText(n) {
      NatTextShort(n);
      NatTextLeadingZero(n);
    }
  }

  lemma JoinFour(parts: seq<string>, sep: char)
    requires |parts| == 4
    ensures Join(parts, sep) == parts[0] + [sep] + parts[1] + [sep] + parts[2] + [sep] + parts[3]
  {
    assert Join(parts[2..], sep) == parts[2] + [sep] + parts[3] by {
      assert parts[2..][1..] == parts[3..];
    }
    assert Join(parts[1..], sep) == parts[1] + [sep] + Join(parts[2..], sep) by {
      assert parts[1..][1..] == parts[2..];
    }
  }

  /** Four pieces without '.' joined by '.' split back into those pieces. */
  lemma SplitFour(w: string, x: string, y: string, z: string)
    requires '.' !in w && '.' !in x && '.' !in y && '.' !in z
    ensures Split(w + "." + x + "." + y + "." + z, '.') == [w, x, y, z]
  {
    SplitWithoutSep(w, '.');
    SplitAppend(w, '.', x);
    SplitAppend(w + "." + x, '.', y);
    SplitAppend(w + "." + x + "." + y, '.', z);
  }

  /** `_ip_int_from_string`: exactly four '.'-separated octets, combined
      big-endian. */
  function IpIntFromString(s: string): Option<Address> {
    if s == "" then None
    else
      var octets := Split(s, '.');
      if |octets| != 4 then None
      else
        match (ParseOctet(octets[0]), ParseOctet(octets[1]), ParseOctet(octets[2]), ParseOctet(octets[3]))
        case (Some(a), Some(b), Some(c), Some(d)) => Some(FromOctets(a, b, c, d))
        case _ => None
  }

  /** `IPv4Address(s)` for a string `s`: no '/' and a valid dotted quad. */
  function ParseAddress(s: string): Option<Address> {
    if '/' in s then None else IpIntFromString(s)
  }

  /** Whatever `_ip_int_from_string` accepts is the dotted quad of the octets
      it combines. */
  lemma IpIntIsDottedQuad(s: string)
    requires IpIntFromString(s).Some?
    ensures exists a: Octet, b: Octet, c: Octet, d: Octet ::
      s == DottedQuad(a, b, c, d) && IpIntFromString(s).value == FromOctets(a, b, c, d)
  {
    var octets := Split(s, '.');
    var a, b, c, d := ParseOctet(octets[0]).value, ParseOctet(octets[1]).value,
                      ParseOctet(octets[2]).value, ParseOctet(octets[3]).value;
    ParseOctetExactly(octets[0], a);
    ParseOctetExactly(octets[1], b);
    ParseOctetExactly(octets[2], c);
    ParseOctetExactly(octets[3], d);
    SplitJoin(s, '.');
    JoinFour(octets, '.');
    assert s == DottedQuad(a, b, c, d);
  }

  /** Every dotted quad of octets in canonical decimal form is accepted. */
  lemma {:induction false} DottedQuadParses(a: Octet, b: Octet, c: Octet, d: Octet)
    ensures ParseAddress(DottedQuad(a, b, c, d)) == Some(FromOctets(a, b, c, d))
  {
    var ta, tb, tc, td := NatText(a), NatText(b), NatText(c), NatText(d);
    assert '.' !in ta && '.' !in tb && '.' !in tc && '.' !in td;
    SplitFour(ta, tb, tc, td);
    assert '/' !in DottedQuad(a, b, c, d) by {
      assert '/' !in ta && '/' !in tb && '/' !in tc && '/' !in td;
    }
    ParseOctetExactly(NatText(a), a);
    ParseOctetExactly(NatText(b), b);
    ParseOctetExactly(NatText(c), c);
    ParseOctetExactly(NatText(d), d);
  }

  /** `IPv4Address(s)` succeeds exactly on dotted quads of octets without
      leading zeros, and yields their big-endian value. */
  lemma ParseAddressExactly(s: string, x: Address)
    ensures ParseAddress(s) == Some(x) <==>
      exists a: Octet, b: Octet, c: Octet, d: Octet ::
        s == DottedQuad(a, b, c, d) && x == FromOctets(a, b, c, d)
  {
    if ParseAddress(s) == Some(x) {
      IpIntIsDottedQuad(s);
    }
    if exists a: Octet, b: Octet, c: Octet, d: Octet :: s == DottedQuad(a, b, c, d) && x == FromOctets(a, b, c, d) {
      var a: Octet, b: Octet, c: Octet, d: Octet :| s == DottedQuad(a, b, c, d) && x == FromOctets(a, b, c, d);
      DottedQuadParses(a, b, c, d);
    }
  }

  /** A text with no '.' (a sentinel such as "dhcp", or `str(None)`) is never an address. */
  lemma UndottedIsNotAddress(s: string)
    requires '.' !in s
    ensures ParseAddress(s) == None
    ensures IpIntFromString(s) == None
  {
    SplitWithoutSep(s, '.');
  }

  /** `x` with its lowest `k` bits cleared: `x & ~(2 ** k - 1)`. */
  function ClearLow(x: nat, k: nat): (r: nat)
    ensures r <= x
  {
    if k == 0 then x else 2 * ClearLow(x / 2, k - 1)
  }

  /** Clearing the same low bits twice is clearing them once. */
  lemma {:induction false} ClearLowTwice(x: nat, k: nat)
    ensures ClearLow(ClearLow(x, k), k) == ClearLow(x, k)
  {
    if k > 0 {
      var y := ClearLow(x / 2, k - 1);
      ClearLowTwice(x / 2, k - 1);
      assert (2 * y) / 2 == y;
    }
  }

  /** `2 ** k` */
  function Pow2(k: nat): (r: nat)
    ensures r >= 1
  {
    if k == 0 then 1 else 2 * Pow2(k - 1)
  }

  /** Clearing the low `k` bits of `q * 2 ** k + r`, with `r` below `2 ** k`,
      leaves `q * 2 ** k`. */
  lemma {:induction false} ClearLowSplit(q: nat, r: nat, k: nat)
    requires r < Pow2(k)
    ensures ClearLow(q * Pow2(k) + r, k) == q * Pow2(k)
  {
    if k > 0 {
      var p := Pow2(k - 1);
      assert q * Pow2(k) == 2 * (q * p);
      assert (q * Pow2(k) + r) / 2 == q * p + r / 2;
      ClearLowSplit(q, r / 2, k - 1);
    }
  }

  /** The netmask of prefix `p`, `_ALL_ONES ^ (_ALL_ONES >> p)`: all 32 bits
      set except the `32 - p` host bits. */
  function Netmask(p: PrefixLen): nat {
    ClearLow(0xFFFF_FFFF, 32 - p)
  }

  /** `x & netmask` for the netmask of prefix `p`: `x` with its `32 - p`
      host bits cleared. */
  function MaskAddress(x: Address, p: PrefixLen): Address {
    ClearLow(x, 32 - p)
  }

  /** An `IPv4Network`: its network address and prefix length. */
  datatype Network = Network(address: Address, prefixLen: PrefixLen)

  /** `x in net`: `x & net.netmask == net.network_address`. */
  predicate Contains(net: Network, x: Address) {
    MaskAddress(x, net.prefixLen) == net.address
  }

  /** `_prefix_from_ip_int`: the prefix length whose netmask is `m`, if any,
      looked for among the lengths from `p` to 32. */
  function PrefixOfMask(m: nat, p: nat): (r: Option<PrefixLen>)
    requires p <= 33
    ensures r.Some? ==> p <= r.value && Netmask(r.value) == m
    ensures r.None? ==> forall q: PrefixLen | p <= q :: Netmask(q) != m
    decreases 33 - p
  {
    if p == 33 then None
    else if Netmask(p) == m then Some(p)
    else PrefixOfMask(m, p + 1)
  }

  /** `_prefix_from_prefix_string`: ASCII digits whose value is at most 32. */
  function PrefixFromPrefixString(t: string): Option<PrefixLen> {
    if IsDecimal(t) && DecimalValue(t) <= 32 then Some(DecimalValue(t)) else None
  }

  /** `_prefix_from_ip_string`: a dotted quad that is a netmask or, failing
      that, a hostmask. For `m` below 2^32, `m ^ _ALL_ONES` is
      `0xFFFF_FFFF - m`. */
  function PrefixFromIpString(t: string): Option<PrefixLen> {
    match IpIntFromString(t)
    case None => None
    case Some(m) =>
      match PrefixOfMask(m, 0)
      case Some(p) => Some(p)
      case None => PrefixOfMask(0xFFFF_FFFF - m, 0)
  }

  /** `_make_netmask(t)` for a string: a prefix length, else a dotted netmask
      or hostmask. */
  function NetmaskPrefix(t: string): (r: Option<PrefixLen>)
    ensures r.Some? ==>
      || (IsDecimal(t) && DecimalValue(t) == r.value)
      || (IpIntFromString(t).Some? &&
          (Netmask(r.value) == IpIntFromString(t).value || Netmask(r.value) == 0xFFFF_FFFF - IpIntFromString(t).value))
  {
    match PrefixFromPrefixString(t)
    case Some(p) => Some(p)
    case None => PrefixFromIpString(t)
  }

  /** `_make_netmask` in full: a decimal prefix 0..32 is taken as is;
      otherwise a dotted quad is read as a netmask first and as a hostmask
      only when no prefix length has it as netmask, so "0.0.0.0" is prefix 0;
      and nothing else is a mask. */
  lemma NetmaskPrefixExactly(t: string)
    ensures IsDecimal(t) && DecimalValue(t) <= 32 ==> NetmaskPrefix(t) == Some(DecimalValue(t))
    ensures !(IsDecimal(t) && DecimalValue(t) <= 32) && IpIntFromString(t).Some?
      && (exists q: PrefixLen :: Netmask(q) == IpIntFromString(t).value)
      ==> NetmaskPrefix(t).Some? && Netmask(NetmaskPrefix(t).value) == IpIntFromString(t).value
    ensures !(IsDecimal(t) && DecimalValue(t) <= 32) && IpIntFromString(t).Some?
      && (exists q: PrefixLen :: Netmask(q) == 0xFFFF_FFFF - IpIntFromString(t).value)
      ==> NetmaskPrefix(t).Some?
    ensures !(IsDecimal(t) && DecimalValue(t) <= 32) && IpIntFromString(t).None? ==> NetmaskPrefix(t).None?
  {
  }

  /** The network of address `a` and prefix `p` under `strict=False`: the
      host bits of `a` are cleared rather than rejected, so the network
      contains its own address and every address that agrees with `a` on the
      network part. */
  function HostBitsCleared(a: Address, p: PrefixLen): (n: Network)
    ensures n.prefixLen == p && Contains(n, a)
    ensures Contains(n, n.address)
  {
    ClearLowTwice(a, 32 - p);
    Network(MaskAddress(a, p), p)
  }

  /** `IPv4Network(text, strict=False)`: `address` or `address/mask`, with
      more than one '/' rejected. */
  function ParseNetwork(text: string): Option<Network> {
    var parts := Split(text, '/');
    if |parts| > 2 then None
    else
      match ParseAddress(parts[0])
      case None => None
      case Some(a) =>
        match (if |parts| == 2 then NetmaskPrefix(parts[1]) else Some(32))
        case None => None
        case Some(p) => Some(HostBitsCleared(a, p))
  }

  /** The mask text of `f"{x}"` for an optional int is a valid prefix exactly
      when `x` is an int from 0 to 32: `str(int)` never has a '.', so the
      netmask fallback never applies. */
  lemma IntPrefix(x: Option<int>)
    ensures NetmaskPrefix(IntOptText(x)) ==
      if x.Some? && 0 <= x.value <= 32 then Some(x.value) else None
  {
    var t := IntOptText(x);
    assert ('.' !in t && !IsDecimal(t)) || (x.Some? && x.value >= 0 && t == NatText(x.value)) by {
      if x.None? {
        assert t == "None" && !IsAsciiDigit(t[0]);
      } else if x.value < 0 {
        assert t == "-" + NatText(-x.value);
        assert !IsAsciiDigit(t[0]);
      }
    }
    UndottedIsNotAddress(t);
  }

  /** The network of `f"{address}/{prefix}"`, where the prefix is the text of
      an optional int: defined exactly when the address parses and the prefix
      is 0..32, and then the address with its host bits cleared. */
  lemma {:induction false} CidrTextNetwork(address: string, prefix: Option<int>)
    ensures ParseNetwork(address + "/" + IntOptText(prefix)) ==
      if ParseAddress(address).Some? && prefix.Some? && 0 <= prefix.value <= 32
      then Some(HostBitsCleared(ParseAddress(address).value, prefix.value))
      else None
  {
    var t := IntOptText(prefix);
    assert '/' !in t by {
      if prefix.None? {
        assert t == "None";
      } else if prefix.value < 0 {
        assert t == "-" + NatText(-prefix.value);
      }
    }
    SplitAppend(address, '/', t);
    IntPrefix(prefix);
    if '/' in address {
      SplitWithSep(address, '/');
    } else {
      SplitWithoutSep(address, '/');
    }
  }
}
