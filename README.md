# pfSense configuration validator, modelled in Dafny

This project models the semantic validator of the pfSense management
backend, `backend/app/pfsense/utils.py`:

- `_validate_dhcp_range_consistency` (the range check);
- `_validate_dhcp_subnet_consistency` (the subnet check);
- `validate_pfsense_config` (the combinator).

It also models the pieces of Python the validator relies on:

- the truthiness of optional strings;
- `str()` and f-strings of optional values;
- `str.split`;
- the `ipaddress` calls `IPv4Address(str)`, `IPv4Network(str, strict=False)`, address order and `address in network`.

The configuration is an immutable value and the validator is a chain of
early returns, so everything is modelled with datatypes, functions and
lemmas.

Modules:

- `PyText` (`pytext.dfy`)
  - `Option`.
  - `Truthy`: `bool()` on an optional `str`.
  - `NatText` / `IntText`: `str(int)`.
  - `Split` / `Join`: `str.split` / `str.join`.
  - `IsDecimal`: `isascii() and isdigit()`.
  - `DecimalValue`: `int()` on ASCII digits.
- `IpAddress` (`ipaddress.dfy`)
  - An address is its integer value, an `Address` below 2^32, so the order on addresses is integer order.
  - `ParseOctet` follows `_parse_octet` of CPython 3.9.5 and later: 1 to 3 ASCII digits, no leading zero, at most 255.
  - `IpIntFromString` / `ParseAddress` follow `_ip_int_from_string` and `IPv4Address(str)`: no '/' and exactly four octets.
  - `ParseNetwork` follows `IPv4Network(text, strict=False)`:
    - at most one '/';
    - the mask is a prefix length 0..32 (section 3.1 of RFC 4632), else a dotted netmask, else a dotted hostmask;
    - host bits are cleared rather than rejected.
  - `Contains` is `x & netmask == network_address`; its masking uses `MaskAddress`.
- `Config` (`config.dfy`): the part of the configuration the validator reads.
  - `system.hostname`;
  - `interfaces.lan.{ipaddr, subnet}`;
  - the optional `dhcpd`, `dhcpd.lan` and `dhcpd.lan.range{from_, to}`.
- `Validator` (`validator.dfy`)
  - `DhcpRangeConsistency` models utils.py:128-151.
  - `DhcpSubnetConsistency` models utils.py:154-184. It returns an `Outcome`, because reading `interfaces.lan` of a missing section raises `AttributeError`. Its `except ValueError` handlers do not catch that error.
  - `ValidatePfSenseConfig` models utils.py:187-222. Its `except Exception` turns every exception into `False`.
  - Reference definitions: `Endpoints`, `EndpointAddresses`, `LanCidr`, `SameSubnet` and the predicate `Accepted`. They describe those results independently of the control flow.
- `Scenarios` (`scenarios.dfy`): concrete configurations with the LAN 192.168.1.1/24: a reversed range, an ordered range, a range leaving the LAN, an empty hostname and a `"dhcp"` endpoint.
  - `Lan24RangeCheck`, `Lan24SubnetCheck` and `Lan24Verdict` cover every range 192.168.c1.d1 to 192.168.c2.d2.
  - The concrete lemmas instantiate them.

The comments of the subnet check (utils.py:177 and :181) say that
addresses which are special values, such as `"dhcp"`, are skipped. The
range check does not skip them: a non-empty endpoint that is not an IPv4
address is caught at utils.py:147-149, and the check returns `False`. Only
the subnet check skips it (utils.py:176-182). The model follows the code.
`RangeCheckRejectsUnparseable`, `SentinelEndpointRejected` and
`DhcpSentinelRejected` state the result: such a configuration is rejected.

`ipaddress` is modelled as in CPython 3.9.5 and later (also 3.8.12), where
`_parse_octet` rejects octets with leading zeros such as "010"; earlier
interpreters accepted them.

## Model

| member | source | states |
|---|---|---|
| PyText.NatText | backend/app/pfsense/utils.py:159 | `str(n)` of a non-negative int is a non-empty digit string whose `int()` is `n` |
| IpAddress.ParseOctetExactly | backend/app/pfsense/utils.py:140-141 | an octet text is accepted with value `n` exactly when it is `str(n)`: no leading zeros, at most 255 |
| IpAddress.ParseAddressExactly | backend/app/pfsense/utils.py:140-141 | `IPv4Address(s)` yields `x` exactly when `s` is the dotted quad of four octets whose big-endian value is `x` |
| IpAddress.DottedQuadParses | backend/app/pfsense/utils.py:140-141 | every dotted quad of octets parses to its big-endian value |
| IpAddress.UndottedIsNotAddress | backend/app/pfsense/utils.py:176-178 | a text without '.', such as a sentinel or `str(None)`, never parses as an address |
| IpAddress.ClearLowSplit | backend/app/pfsense/utils.py:173 | clearing the low `k` bits of `q * 2^k + r` with `r < 2^k` leaves `q * 2^k`: masking keeps the network part and drops the host part |
| IpAddress.ClearLowTwice | backend/app/pfsense/utils.py:160 | clearing host bits is idempotent |
| IpAddress.HostBitsCleared | backend/app/pfsense/utils.py:160 | under `strict=False` the network of `a/p` has prefix `p` and contains both `a` and its own network address |
| IpAddress.PrefixOfMask | backend/app/pfsense/utils.py:160 | the prefix found for a mask has exactly that netmask; when none is found, no prefix length in range has it |
| IpAddress.NetmaskPrefix | backend/app/pfsense/utils.py:160 | an accepted mask text is a decimal prefix of that value, or a dotted quad equal to its netmask or its hostmask |
| IpAddress.NetmaskPrefixExactly | backend/app/pfsense/utils.py:160 | a decimal 0..32 is accepted as that prefix; otherwise a dotted quad that is some prefix's netmask is read as that netmask (before any hostmask reading), a hostmask is accepted, and a text that is neither decimal nor a dotted quad is rejected |
| IpAddress.ParseAddress | backend/app/pfsense/utils.py:140-141 | `IPv4Address(str)`; characterised both ways by `ParseAddressExactly` |
| IpAddress.ParseNetwork | backend/app/pfsense/utils.py:160 | `IPv4Network(text, strict=False)`; characterised for the LAN text by `CidrTextNetwork` and `LanNetworkOfText` |
| IpAddress.IntPrefix | backend/app/pfsense/utils.py:159-160 | the mask text `str(subnet)` is accepted exactly when `subnet` is an int in 0..32, and then as that prefix |
| IpAddress.CidrTextNetwork | backend/app/pfsense/utils.py:159-160 | `IPv4Network(f"{address}/{subnet}", strict=False)` is defined exactly when the address parses and the subnet is 0..32, and it is then that address with host bits cleared |
| Validator.DhcpRangeConsistency | backend/app/pfsense/utils.py:128-151 | the range check; characterised both ways by `RangeCheckMeaning` |
| Validator.DhcpSubnetConsistency | backend/app/pfsense/utils.py:154-184 | the subnet check; its raising is characterised by `SubnetCheckRaises` and its `False` result by `SubnetCheckRejects` |
| Validator.ValidatePfSenseConfig | backend/app/pfsense/utils.py:187-222 | the combinator; characterised both ways by `ValidateMeansAccepted` |
| Validator.LanNetworkOfText | backend/app/pfsense/utils.py:159-160 | the LAN network is defined exactly when `LanCidr` is, and it equals the LAN address with host bits cleared |
| Validator.LanNetworkContains | backend/app/pfsense/utils.py:173 | an address is in the LAN network exactly when it agrees with the LAN address on the prefix bits |
| Validator.RangeCheckSkipped | backend/app/pfsense/utils.py:130-135 | the range check passes when `dhcpd`, its `lan` or its `range` is missing, or either endpoint is `None` or empty |
| Validator.RangeCheckOrder | backend/app/pfsense/utils.py:140-146 | with both endpoints parsed, the range check passes exactly when `from < to`, so equal endpoints fail |
| Validator.RangeCheckRejectsUnparseable | backend/app/pfsense/utils.py:137-149 | two non-empty endpoints of which one does not parse fail the range check |
| Validator.RangeCheckMeaning | backend/app/pfsense/utils.py:128-151 | the range check passes exactly when, if both endpoints are given, both parse and are strictly increasing |
| Validator.SubnetCheckRaises | backend/app/pfsense/utils.py:156-182 | the subnet check raises, and only `AttributeError`, exactly when `interfaces` or `interfaces.lan` is missing |
| Validator.SubnetCheckSkipsInvalidLan | backend/app/pfsense/utils.py:159-182 | the subnet check passes when the LAN `ipaddr/subnet` does not form a network (the outer `ValueError` is swallowed) |
| Validator.SubnetCheckSkipsEndpoints | backend/app/pfsense/utils.py:162-178 | the subnet check passes when an endpoint is missing or empty, or either endpoint does not parse |
| Validator.SubnetCheckRejects | backend/app/pfsense/utils.py:159-175 | the subnet check fails exactly when the LAN forms a network, both endpoints parse, and one endpoint's masked value differs from the masked LAN address |
| Validator.ValidateRequiresFields | backend/app/pfsense/utils.py:198-205 | a missing or empty hostname, a missing `interfaces.lan`, or a missing or empty LAN address is rejected, whatever the DHCP section holds |
| Validator.ValidateIsConjunction | backend/app/pfsense/utils.py:196-222 | validation is the short-circuit conjunction of hostname, LAN address, range check and subnet check; after the field checks the subnet check cannot raise |
| Validator.ValidateMeansAccepted | backend/app/pfsense/utils.py:187-222 | validation accepts exactly the configurations described by the reference predicate `Accepted` |
| Validator.ValidatedRangeInsideLan | backend/app/pfsense/utils.py:140-218 | if validation passes, both endpoints are given and the LAN forms a network, then both endpoints parse, `from < to` and both lie in the LAN network |
| Validator.SentinelEndpointRejected | backend/app/pfsense/utils.py:147-182 | an endpoint without '.' fails the range check and validation, while the subnet check passes |
| Scenarios.Lan24Network | backend/app/pfsense/utils.py:159-160 | 192.168.1.1/24 is the network 192.168.1.0/24 |
| Scenarios.Lan24RangeCheck | backend/app/pfsense/utils.py:140-146 | for LAN 192.168.1.1/24, the range check on 192.168.c1.d1 to 192.168.c2.d2 is the order of the two addresses |
| Scenarios.Lan24SubnetCheck | backend/app/pfsense/utils.py:169-175 | for LAN 192.168.1.1/24, the subnet check passes exactly when both endpoints are in 192.168.1.x |
| Scenarios.Lan24Verdict | backend/app/pfsense/utils.py:196-218 | for that LAN, validation passes exactly when the hostname is non-empty, the endpoints are in order and both are in 192.168.1.x |
| Scenarios.ReversedRangeRejected | backend/app/pfsense/utils.py:142-146 | from 192.168.1.100 to 192.168.1.50 fails the range check and validation |
| Scenarios.OrderedRangeAccepted | backend/app/pfsense/utils.py:187-218 | from 192.168.1.50 to 192.168.1.100 passes the range check and validation |
| Scenarios.RangeOutsideLanRejected | backend/app/pfsense/utils.py:173-175 | from 192.168.1.50 to 192.168.2.10 passes the range check but fails the subnet check and validation |
| Scenarios.EmptyHostnameRejected | backend/app/pfsense/utils.py:198-200 | an empty hostname is rejected despite a valid range |
| Scenarios.DhcpSentinelRejected | backend/app/pfsense/utils.py:147-149 | `from = "dhcp"` fails the range check and validation, and the subnet check passes |

## Left out

- `connect` (utils.py:22-46): SSH authentication through paramiko. It is foreign-library I/O.
- `fetch_pfsense_config` and `push_pfsense_config` (utils.py:49-106): remote commands, SFTP and temporary files. They are network and filesystem side effects.
- `load_pfsense_config_from_file` (utils.py:109-125): file I/O, XML decoding by xmltodict with list-forcing, and the pydantic schema `PfSenseConfig`.
  - These are library code, and the schema's source is not part of this model.
  - Configuration values therefore arrive already typed: optional strings, and an optional int for `subnet`.
  - Users, groups and static maps are not modelled, because the validator does not read them.
- The `logging` calls are side-channel output. They do not affect any result.
- `backend/app/api/api.py` is web-framework router registration.
- `IPv4Address` and `IPv4Network` over `int`, `bytes` or tuples are not modelled. The validator only passes strings.
- Exception messages, and the difference between `AddressValueError` and `NetmaskValueError`, are not modelled. Any `ValueError` from `ipaddress` becomes `None`.
- IpAddress.MaskAddress: `x & netmask` is modelled as clearing the `32 - p` low bits by halving and doubling, because addresses are integers here, not bit-vectors. That this equals the bitwise AND is built into the definition, not proved.
- IpAddress.PrefixOfMask: `_prefix_from_ip_int` counts trailing zero bits. The model searches the prefix lengths for one whose netmask matches. Its contract states that a returned prefix has that netmask, and that nothing is returned only when no prefix length has it. No scenario states a dotted-netmask example, because the validator's mask text is always `str(subnet)`; `IntPrefix` shows that the netmask fallbacks are never taken.
