/** The part of the pfSense configuration document that the validator reads.
    Each section is optional: a section missing from the document is `None`,
    and reading a field through it raises `AttributeError`. The users, groups
    and static maps of the document are not read by the validator and are
    not modelled. */
module Config {
  import opened PyText

  datatype System = System(hostname: Option<string>)

  /** `interfaces.lan`: the LAN address and its CIDR prefix length. */
  datatype LanInterface = LanInterface(ipaddr: Option<string>, subnet: Option<int>)

  datatype Interfaces = Interfaces(lan: Option<LanInterface>)

  /** `dhcpd.lan.range`: the `from` and `to` endpoints of the DHCP pool. */
  datatype DhcpRange = DhcpRange(fromAddr: Option<string>, toAddr: Option<string>)

  datatype DhcpLan = DhcpLan(range: Option<DhcpRange>)

  datatype Dhcpd = Dhcpd(lan: Option<DhcpLan>)

  datatype PfSenseConfig = PfSenseConfig(
    system: Option<System>,
    interfaces: Option<Interfaces>,
    dhcpd: Option<Dhcpd>)
}
