/** Concrete configurations: DHCP ordering, subnet
    containment, required-field and sentinel cases. Addresses are written as `DottedQuad(...)`;
    `DottedQuadTexts` shows which strings those are. */
module Scenarios {
  import opened PyText
  import opened IpAddress
  import opened Config
  import opened Validator

  /** The LAN interface 192.168.1.1 with subnet 24. */
  function Lan24(): LanInterface {
    LanInterface(Some(DottedQuad(192, 168, 1, 1)), Some(24))
  }

  /** A configuration with the given hostname, the LAN 192.168.1.1/24 and
      the given DHCP range. */
  function LanConfig(hostname: string, fromText: string, toText: string): PfSenseConfig {
    PfSenseConfig(
      Some(System(Some(hostname))),
      Some(Interfaces(Some(Lan24()))),
      Some(Dhcpd(Some(DhcpLan(Some(DhcpRange(Some(fromText), Some(toText))))))))
  }

  /** The decimal texts of the octets used below. */
  lemma OctetTexts()
    ensures NatText(1) == "1" && NatText(2) == "2" && NatText(10) == "10"
    ensures NatText(50) == "50" && NatText(100) == "100"
    ensures NatText(168) == "168" && NatText(192) == "192"
  {
  }

  /** The texts of the addresses used below. */
  lemma DottedQuadTexts()
    ensures DottedQuad(192, 168, 1, 1) == "192.168.1.1"
    ensures DottedQuad(192, 168, 1, 50) == "192.168.1.50"
    ensures DottedQuad(192, 168, 1, 100) == "192.168.1.100"
    ensures DottedQuad(192, 168, 2, 10) == "192.168.2.10"
  {
    OctetTexts();
  }

  /** The /24 network part of 192.168.c.d is 192.168.c.0. */
  lemma Mask24(c: Octet, d: Octet)
    ensures MaskAddress(FromOctets(192, 168, c, d), 24) == FromOctets(192, 168, c, 0)
  {
    assert Pow2(8) == 256;
    ClearLowSplit(192 * 0x1_0000 + 168 * 0x100 + c, d, 8);
  }

  /** 192.168.1.1/24 is the network 192.168.1.0/24. */
  lemma Lan24Network()
    ensures ParseNetwork(LanSubnetText(Lan24())) == Some(Network(FromOctets(192, 168, 1, 0), 24))
  {
    DottedQuadParses(192, 168, 1, 1);
    LanNetworkOfText(Lan24());
    Mask24(1, 1);
  }

  /** The LAN 192.168.1.1/24 forms a network. */
  lemma Lan24Cidr()
    ensures LanCidr(Lan24()) == Some((FromOctets(192, 168, 1, 1), 24))
  {
    DottedQuadParses(192, 168, 1, 1);
  }

  /** The range 192.168.c1.d1 to 192.168.c2.d2 parses. */
  lemma Lan24Endpoints(hostname: string, c1: Octet, d1: Octet, c2: Octet, d2: Octet)
    ensures EndpointAddresses(LanConfig(hostname, DottedQuad(192, 168, c1, d1), DottedQuad(192, 168, c2, d2)))
      == Some((FromOctets(192, 168, c1, d1), FromOctets(192, 168, c2, d2)))
  {
    DottedQuadParses(192, 168, c1, d1);
    DottedQuadParses(192, 168, c2, d2);
  }

  /** With the LAN 192.168.1.1/24 and a range from 192.168.c1.d1 to
      192.168.c2.d2, the range check is the order of the endpoints. */
  lemma Lan24RangeCheck(hostname: string, c1: Octet, d1: Octet, c2: Octet, d2: Octet)
    ensures DhcpRangeConsistency(LanConfig(hostname, DottedQuad(192, 168, c1, d1), DottedQuad(192, 168, c2, d2)))
      <==> FromOctets(192, 168, c1, d1) < FromOctets(192, 168, c2, d2)
  {
    var f, t := DottedQuad(192, 168, c1, d1), DottedQuad(192, 168, c2, d2);
    DottedQuadParses(192, 168, c1, d1);
    DottedQuadParses(192, 168, c2, d2);
    RangeCheckOrder(LanConfig(hostname, f, t), f, t, FromOctets(192, 168, c1, d1), FromOctets(192, 168, c2, d2));
  }

  /** ... and the subnet check is whether both endpoints are in 192.168.1.x. */
  lemma Lan24SubnetCheck(hostname: string, c1: Octet, d1: Octet, c2: Octet, d2: Octet)
    ensures DhcpSubnetConsistency(LanConfig(hostname, DottedQuad(192, 168, c1, d1), DottedQuad(192, 168, c2, d2)))
      == Returned(c1 == 1 && c2 == 1)
  {
    var c := LanConfig(hostname, DottedQuad(192, 168, c1, d1), DottedQuad(192, 168, c2, d2));
    Lan24Cidr();
    Lan24Endpoints(hostname, c1, d1, c2, d2);
    Mask24(1, 1);
    Mask24(c1, d1);
    Mask24(c2, d2);
    SubnetCheckRejects(c, Lan24());
    SubnetCheckRaises(c);
  }

  /** ... so validation needs a hostname, endpoints in order and both
      endpoints in 192.168.1.x. */
  lemma Lan24Verdict(hostname: string, c1: Octet, d1: Octet, c2: Octet, d2: Octet)
    ensures ValidatePfSenseConfig(LanConfig(hostname, DottedQuad(192, 168, c1, d1), DottedQuad(192, 168, c2, d2)))
      <==> hostname != "" && FromOctets(192, 168, c1, d1) < FromOctets(192, 168, c2, d2) && c1 == 1 && c2 == 1
  {
    Lan24RangeCheck(hostname, c1, d1, c2, d2);
    Lan24SubnetCheck(hostname, c1, d1, c2, d2);
    ValidateIsConjunction(LanConfig(hostname, DottedQuad(192, 168, c1, d1), DottedQuad(192, 168, c2, d2)));
  }

  /** from = 192.168.1.100, to = 192.168.1.50 is rejected by the range check
      and by validation. */
  lemma ReversedRangeRejected()
    ensures !DhcpRangeConsistency(LanConfig("pfSense", DottedQuad(192, 168, 1, 100), DottedQuad(192, 168, 1, 50)))
    ensures !ValidatePfSenseConfig(LanConfig("pfSense", DottedQuad(192, 168, 1, 100), DottedQuad(192, 168, 1, 50)))
  {
    Lan24RangeCheck("pfSense", 1, 100, 1, 50);
    Lan24Verdict("pfSense", 1, 100, 1, 50);
  }

  /** from = 192.168.1.50, to = 192.168.1.100 passes both checks, so the
      configuration is valid. */
  lemma OrderedRangeAccepted()
    ensures DhcpRangeConsistency(LanConfig("pfSense", DottedQuad(192, 168, 1, 50), DottedQuad(192, 168, 1, 100)))
    ensures ValidatePfSenseConfig(LanConfig("pfSense", DottedQuad(192, 168, 1, 50), DottedQuad(192, 168, 1, 100)))
  {
    Lan24RangeCheck("pfSense", 1, 50, 1, 100);
    Lan24Verdict("pfSense", 1, 50, 1, 100);
  }

  /** from = 192.168.1.50, to = 192.168.2.10 is in order but leaves
      192.168.1.0/24, so the subnet check and validation fail. */
  lemma RangeOutsideLanRejected()
    ensures DhcpRangeConsistency(LanConfig("pfSense", DottedQuad(192, 168, 1, 50), DottedQuad(192, 168, 2, 10)))
    ensures DhcpSubnetConsistency(LanConfig("pfSense", DottedQuad(192, 168, 1, 50), DottedQuad(192, 168, 2, 10))) == Returned(false)
    ensures !ValidatePfSenseConfig(LanConfig("pfSense", DottedQuad(192, 168, 1, 50), DottedQuad(192, 168, 2, 10)))
  {
    Lan24RangeCheck("pfSense", 1, 50, 2, 10);
    Lan24SubnetCheck("pfSense", 1, 50, 2, 10);
    Lan24Verdict("pfSense", 1, 50, 2, 10);
  }

  /** An empty hostname is rejected even with a well-formed range. */
  lemma EmptyHostnameRejected()
    ensures !ValidatePfSenseConfig(LanConfig("", DottedQuad(192, 168, 1, 50), DottedQuad(192, 168, 1, 100)))
  {
    Lan24Verdict("", 1, 50, 1, 100);
  }

  /** from = "dhcp" is skipped by the subnet check but fails the range check,
      so the configuration is rejected. */
  lemma DhcpSentinelRejected()
    ensures !DhcpRangeConsistency(LanConfig("pfSense", "dhcp", DottedQuad(192, 168, 1, 100)))
    ensures DhcpSubnetConsistency(LanConfig("pfSense", "dhcp", DottedQuad(192, 168, 1, 100))) == Returned(true)
    ensures !ValidatePfSenseConfig(LanConfig("pfSense", "dhcp", DottedQuad(192, 168, 1, 100)))
  {
    var t := DottedQuad(192, 168, 1, 100);
    SentinelEndpointRejected(LanConfig("pfSense", "dhcp", t), "dhcp", t);
  }
}
