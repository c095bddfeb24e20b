/** The semantic validator of a pfSense configuration: the DHCP range check,
    the DHCP subnet check and the combinator that runs them after the
    required-field checks. Each is a total function of the configuration;
    the exceptions the Python code relies on are modelled explicitly. */
module Validator {
  import opened PyText
  import opened IpAddress
  import opened Config

  /** The exceptions that reading or parsing the configuration can raise. */
  datatype Exception = AttributeError | ValueError

  /** A Python call either returns a value or raises an exception. */
  datatype Outcome<+T> = Returned(value: T) | Raised(error: Exception)

  /** `config.dhcpd and config.dhcpd.lan and config.dhcpd.lan.range`: the
      DHCP range, when every section on the way to it is present. */
  function ConfiguredRange(c: PfSenseConfig): Option<DhcpRange> {
    if c.dhcpd.Some? && c.dhcpd.value.lan.Some? then c.dhcpd.value.lan.value.range else None
  }

  /** `_validate_dhcp_range_consistency`. A `ValueError` from either
      `IPv4Address` is caught and makes the check fail. */
  function DhcpRangeConsistency(c: PfSenseConfig): bool {
    match ConfiguredRange(c)
    case None => true
    case Some(r) =>
      if !(Truthy(r.fromAddr) && Truthy(r.toAddr)) then true
      else
        match ParseAddress(r.fromAddr.value)
        case None => false
        case Some(fromIp) =>
          match ParseAddress(r.toAddr.value)
          case None => false
          case Some(toIp) => !(fromIp >= toIp)
  }

  /** `f"{lan.ipaddr}/{lan.subnet}"` */
  function LanSubnetText(lan: LanInterface): string {
    StrText(lan.ipaddr) + "/" + IntOptText(lan.subnet)
  }

  /** `_validate_dhcp_subnet_consistency`. Reading `interfaces.lan` through a
      missing section raises `AttributeError`, which its `except ValueError`
      handlers do not catch. A `ValueError` from `IPv4Network` or from
      either `IPv4Address` is caught and makes the check pass. */
  function DhcpSubnetConsistency(c: PfSenseConfig): Outcome<bool> {
    if c.interfaces.None? || c.interfaces.value.lan.None? then Raised(AttributeError)
    else
      match ParseNetwork(LanSubnetText(c.interfaces.value.lan.value))
      case None => Returned(true)
      case Some(lanNetwork) =>
        match ConfiguredRange(c)
        case None => Returned(true)
        case Some(r) =>
          if !(Truthy(r.fromAddr) && Truthy(r.toAddr)) then Returned(true)
          else
            match (ParseAddress(r.fromAddr.value), ParseAddress(r.toAddr.value))
            case (Some(fromIp), Some(toIp)) =>
              if !Contains(lanNetwork, fromIp) || !Contains(lanNetwork, toIp) then Returned(false)
              else Returned(true)
            case _ => Returned(true)
  }

  /** `validate_pfsense_config`. Its `except Exception` turns any exception,
      such as reading a field of a missing section, into `False`. */
  function ValidatePfSenseConfig(c: PfSenseConfig): bool {
    if c.system.None? then false
    else if !Truthy(c.system.value.hostname) then false
    else if c.interfaces.None? || c.interfaces.value.lan.None? then false
    else if !Truthy(c.interfaces.value.lan.value.ipaddr) then false
    else if !DhcpRangeConsistency(c) then false
    else
      match DhcpSubnetConsistency(c)
      case Returned(ok) => ok
      case Raised(_) => false
  }

  // ----- reference definitions -----

  /** The two endpoints of the DHCP range, when the range is configured and
      neither endpoint is `None` or empty. */
  function Endpoints(c: PfSenseConfig): Option<(string, string)> {
    match ConfiguredRange(c)
    case Some(DhcpRange(Some(f), Some(t))) => if f != "" && t != "" then Some((f, t)) else None
    case _ => None
  }

  /** The endpoints as addresses, when both are present and both parse. */
  function EndpointAddresses(c: PfSenseConfig): Option<(Address, Address)> {
    match Endpoints(c)
    case None => None
    case Some((fs, ts)) =>
      if ParseAddress(fs).Some? && ParseAddress(ts).Some?
      then Some((ParseAddress(fs).value, ParseAddress(ts).value))
      else None
  }

  /** The LAN address and prefix length, when `ipaddr` is an IPv4 address and
      `subnet` an integer from 0 to 32. */
  function LanCidr(lan: LanInterface): Option<(Address, PrefixLen)> {
    if lan.ipaddr.Some? && ParseAddress(lan.ipaddr.value).Some?
       && lan.subnet.Some? && 0 <= lan.subnet.value <= 32
    then Some((ParseAddress(lan.ipaddr.value).value, lan.subnet.value))
    else None
  }

  /** `x` agrees with the LAN address `a` on the first `p` bits. */
  predicate SameSubnet(x: Address, a: Address, p: PrefixLen) {
    MaskAddress(x, p) == MaskAddress(a, p)
  }

  /** What an accepted configuration looks like: a hostname and a LAN
      address; a DHCP range with both endpoints given has two addresses in
      strictly increasing order, and when the LAN forms a network, both lie
      in it. */
  predicate Accepted(c: PfSenseConfig) {
    && c.system.Some? && Truthy(c.system.value.hostname)
    && c.interfaces.Some? && c.interfaces.value.lan.Some?
    && Truthy(c.interfaces.value.lan.value.ipaddr)
    && (Endpoints(c).Some? ==> EndpointAddresses(c).Some?)
    && (EndpointAddresses(c).Some? ==>
          var (f, t) := EndpointAddresses(c).value;
          && f < t
          && (LanCidr(c.interfaces.value.lan.value).Some? ==>
                var (a, p) := LanCidr(c.interfaces.value.lan.value).value;
                SameSubnet(f, a, p) && SameSubnet(t, a, p)))
  }

  // ----- the LAN network -----

  /** `IPv4Network(f"{ipaddr}/{subnet}", strict=False)` is defined exactly when
      the LAN forms a network, and is then that network with host bits cleared. */
  lemma LanNetworkOfText(lan: LanInterface)
    ensures ParseNetwork(LanSubnetText(lan)) ==
      match LanCidr(lan)
      case None => None
      case Some((a, p)) => Some(HostBitsCleared(a, p))
  {
    CidrTextNetwork(StrText(lan.ipaddr), lan.subnet);
    if lan.ipaddr.None? {
      UndottedIsNotAddress("None");
    }
  }

  /** Membership in the LAN network is agreement with the LAN address on the
      prefix bits. */
  lemma LanNetworkContains(lan: LanInterface, x: Address)
    requires LanCidr(lan).Some?
    ensures ParseNetwork(LanSubnetText(lan)).Some?
    ensures Contains(ParseNetwork(LanSubnetText(lan)).value, x) <==>
      SameSubnet(x, LanCidr(lan).value.0, LanCidr(lan).value.1)
  {
    LanNetworkOfText(lan);
    var (a, p) := LanCidr(lan).value;
    assert ParseNetwork(LanSubnetText(lan)) == Some(HostBitsCleared(a, p));
  }

  // ----- the range check -----

  /** The range check passes when `dhcpd`, `dhcpd.lan` or `dhcpd.lan.range`
      is missing, or when either endpoint is `None` or empty. */
  lemma RangeCheckSkipped(c: PfSenseConfig)
    requires Endpoints(c).None?
    ensures DhcpRangeConsistency(c)
  {
  }

  /** With both endpoints parsed, the range check is strict order, so equal
      endpoints are rejected. */
  lemma RangeCheckOrder(c: PfSenseConfig, fromText: string, toText: string, fromIp: Address, toIp: Address)
    requires Endpoints(c) == Some((fromText, toText))
    requires ParseAddress(fromText) == Some(fromIp) && ParseAddress(toText) == Some(toIp)
    ensures DhcpRangeConsistency(c) <==> fromIp < toIp
  {
  }

  /** Two non-empty endpoints of which one is not an address fail the range
      check: a sentinel is rejected here. */
  lemma RangeCheckRejectsUnparseable(c: PfSenseConfig, fromText: string, toText: string)
    requires Endpoints(c) == Some((fromText, toText))
    requires ParseAddress(fromText).None? || ParseAddress(toText).None?
    ensures !DhcpRangeConsistency(c)
  {
  }

  /** The range check passes exactly when, if both endpoints are given,
      both are addresses in strictly increasing order. */
  lemma RangeCheckMeaning(c: PfSenseConfig)
    ensures DhcpRangeConsistency(c) <==>
      (Endpoints(c).Some? ==>
         EndpointAddresses(c).Some? && EndpointAddresses(c).value.0 < EndpointAddresses(c).value.1)
  {
    match Endpoints(c)
    case None =>
      RangeCheckSkipped(c);
    case Some((f, t)) =>
      if ParseAddress(f).Some? && ParseAddress(t).Some? {
        RangeCheckOrder(c, f, t, ParseAddress(f).value, ParseAddress(t).value);
      } else {
        RangeCheckRejectsUnparseable(c, f, t);
      }
  }

  // ----- the subnet check -----

  /** The subnet check raises `AttributeError`, and only that, exactly when
      `interfaces` or `interfaces.lan` is missing. */
  lemma SubnetCheckRaises(c: PfSenseConfig)
    ensures DhcpSubnetConsistency(c).Raised? <==> c.interfaces.None? || c.interfaces.value.lan.None?
    ensures DhcpSubnetConsistency(c).Raised? ==> DhcpSubnetConsistency(c).error == AttributeError
  {
  }

  /** The subnet check passes when the LAN does not form a network. */
  lemma SubnetCheckSkipsInvalidLan(c: PfSenseConfig, lan: LanInterface)
    requires c.interfaces == Some(Interfaces(Some(lan)))
    requires LanCidr(lan).None?
    ensures DhcpSubnetConsistency(c) == Returned(true)
  {
    LanNetworkOfText(lan);
  }

  /** The subnet check passes when an endpoint is missing or empty, or when
      either endpoint is not an address: a sentinel is skipped here. */
  lemma SubnetCheckSkipsEndpoints(c: PfSenseConfig, lan: LanInterface)
    requires c.interfaces == Some(Interfaces(Some(lan)))
    requires EndpointAddresses(c).None?
    ensures DhcpSubnetConsistency(c) == Returned(true)
  {
  }

  /** The subnet check fails exactly when the LAN forms a network, both
      endpoints parse, and one of them differs from the LAN address on the
      prefix bits. */
  lemma SubnetCheckRejects(c: PfSenseConfig, lan: LanInterface)
    requires c.interfaces == Some(Interfaces(Some(lan)))
    ensures DhcpSubnetConsistency(c) == Returned(false) <==>
      && LanCidr(lan).Some? && EndpointAddresses(c).Some?
      && var (a, p) := LanCidr(lan).value;
         var (f, t) := EndpointAddresses(c).value;
         !SameSubnet(f, a, p) || !SameSubnet(t, a, p)
  {
    LanNetworkOfText(lan);
    var text := LanSubnetText(lan);
    match LanCidr(lan)
    case None =>
      assert ParseNetwork(text).None?;
    case Some((a, p)) =>
      assert ParseNetwork(text) == Some(HostBitsCleared(a, p));
      match EndpointAddresses(c)
      case None =>
        assert DhcpSubnetConsistency(c) == Returned(true);
      case Some((f, t)) =>
        var r := ConfiguredRange(c).value;
        assert ParseAddress(r.fromAddr.value) == Some(f) && ParseAddress(r.toAddr.value) == Some(t);
  }

  // ----- validate_pfsense_config -----

  /** An empty or missing hostname, or an empty or missing LAN address, is
      rejected whatever the DHCP section holds. */
  lemma ValidateRequiresFields(c: PfSenseConfig)
    ensures c.system.None? || !Truthy(c.system.value.hostname) ==> !ValidatePfSenseConfig(c)
    ensures c.interfaces.None? || c.interfaces.value.lan.None? ==> !ValidatePfSenseConfig(c)
    ensures c.interfaces.Some? && c.interfaces.value.lan.Some? && !Truthy(c.interfaces.value.lan.value.ipaddr)
      ==> !ValidatePfSenseConfig(c)
  {
  }

  /** Validation is the short-circuit conjunction of the hostname check, the
      LAN address check, the range check and the subnet check; once the
      first two pass, the subnet check cannot raise. */
  lemma ValidateIsConjunction(c: PfSenseConfig)
    ensures ValidatePfSenseConfig(c) <==>
      && c.system.Some? && Truthy(c.system.value.hostname)
      && c.interfaces.Some? && c.interfaces.value.lan.Some?
      && Truthy(c.interfaces.value.lan.value.ipaddr)
      && DhcpRangeConsistency(c)
      && DhcpSubnetConsistency(c) == Returned(true)
    ensures c.interfaces.Some? && c.interfaces.value.lan.Some? ==> DhcpSubnetConsistency(c).Returned?
  {
  }

  /** Validation accepts exactly the configurations described by `Accepted`. */
  lemma ValidateMeansAccepted(c: PfSenseConfig)
    ensures ValidatePfSenseConfig(c) <==> Accepted(c)
  {
    ValidateIsConjunction(c);
    RangeCheckMeaning(c);
    if c.interfaces.Some? && c.interfaces.value.lan.Some? {
      SubnetCheckRejects(c, c.interfaces.value.lan.value);
    }
  }

  /** A validated configuration whose range has both endpoints and whose LAN
      forms a network has two addresses, in strictly increasing order, both in
      the LAN network. */
  lemma ValidatedRangeInsideLan(c: PfSenseConfig, lan: LanInterface, fromText: string, toText: string)
    requires ValidatePfSenseConfig(c)
    requires c.interfaces == Some(Interfaces(Some(lan)))
    requires Endpoints(c) == Some((fromText, toText))
    requires LanCidr(lan).Some?
    ensures ParseAddress(fromText).Some? && ParseAddress(toText).Some?
    ensures ParseAddress(fromText).value < ParseAddress(toText).value
    ensures ParseNetwork(LanSubnetText(lan)).Some?
    ensures Contains(ParseNetwork(LanSubnetText(lan)).value, ParseAddress(fromText).value)
    ensures Contains(ParseNetwork(LanSubnetText(lan)).value, ParseAddress(toText).value)
  {
    ValidateMeansAccepted(c);
    LanNetworkContains(lan, ParseAddress(fromText).value);
    LanNetworkContains(lan, ParseAddress(toText).value);
  }

  /** A sentinel endpoint (a text with no '.', such as "dhcp") is skipped by
      the subnet check but fails the range check, which runs first, so the
      configuration is rejected. */
  lemma SentinelEndpointRejected(c: PfSenseConfig, fromText: string, toText: string)
    requires Endpoints(c) == Some((fromText, toText))
    requires '.' !in fromText || '.' !in toText
    ensures !DhcpRangeConsistency(c)
    ensures !ValidatePfSenseConfig(c)
    ensures c.interfaces.Some? && c.interfaces.value.lan.Some? ==> DhcpSubnetConsistency(c) == Returned(true)
  {
    if '.' !in fromText {
      UndottedIsNotAddress(fromText);
    } else {
      UndottedIsNotAddress(toText);
    }
  }
}
