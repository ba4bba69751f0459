# subneteo.js in Dafny

A model of the IPv4 subnet planner in `subneteo.js`. It plans with CIDR prefix notation, as in section 3.1 of RFC 4632, and the Dafny model proves properties of it. The planner does four things:

1. It divides a base network into N equal blocks (`calcularSubredes`).
2. It places one variable-size block per LAN right after those blocks (`calcularSubredesParaHosts`).
3. It shows both results as tables, with a jump column and a valid-address column (`generarTablas`).
4. It generates Cisco-style commands for a chain of n + 1 routers joined by n serial /30 links (`generarComandos`).

`calcular` is modelled only as the pure hand-off between these steps.

Modules, one per file:

| file | module | what it holds |
|---|---|---|
| `optional.dfy` | `Optional` | `Option` and `Result`: the planner's `null` returns and its error exits |
| `bits.dfy` | `Bits` | exact powers of two, plus the `while (2^bits < need) bits++` search |
| `address.dfy` | `Address` | dotted addresses, `ipToInt`, `intToIp` and `prefixToMask` |
| `equal_divider.dfy` | `EqualDivider` | `calcularSubredes` |
| `host_divider.dfy` | `HostDivider` | `calcularSubredesParaHosts` |
| `tables.dfy` | `Tables` | the jump and valid-range arithmetic of `generarTablas` |
| `commands.dfy` | `Commands` | `generarComandos`, with its output as a sequence of `Line` values, one constructor per template line |
| `plan.dfy` | `Planner` | the pure part of `calcular`: division, hand-off, tables and commands |

How the JavaScript number semantics are modelled:
- **Addresses are `int`.**
  - `ipToInt` is the literal fold `(acc << 8) + octet`. Its `<<` goes through ECMAScript ToInt32, so an address whose first octet is 128 or more reads negative.
  - `intToIp` is defined on x mod 2^32.
  - `Address.IntToIpShiftsAgree` proves that this equals the source's `(x >> s) & 255` on every integer.
- **Powers of two are exact** (`Pow2`), where the source uses floating-point `Math.pow`.
- **Signed or unsigned.** Addresses are meant as unsigned 32-bit values, but `ipToInt` reads them as signed. The model follows the code. The two readings part in the host table's valid-address cell: `Plan` shows that cell as the page computes it, beside the intended cell, and Findings records the difference.

## Model

| member | source | states |
|---|---|---|
| Bits.BitsFor | subneteo.js:63-64 | The bit-search loop stops at an exponent whose power reaches the need, while the power one below falls short. |
| Bits.BitsForLeast | subneteo.js:88-89 | Minimality in both directions: an exponent's power reaches the need exactly when the exponent is at least the loop's result. |
| Address.IpToInt | subneteo.js:43-45 | For octets in 0..255, the signed-shift fold equals the two's-complement reading of the big-endian value. |
| Address.IntToIp | subneteo.js:46-48 | The result is four octets in 0..255 whose big-endian reading is the argument modulo 2^32. |
| Address.IntToIpShiftsAgree | subneteo.js:47 | The source's `(x >> s) & 255` (arithmetic shift of the signed 32-bit reading, then the low byte) gives the same four octets as the modulo-2^32 definition, for every integer. |
| Address.IntToIpShifts | subneteo.js:47 | `intToIp` as written: octet k is the signed 32-bit reading shifted right arithmetically by 24, 16, 8 or 0 bits, then cut to its low byte. |
| Address.RoundTrip | subneteo.js:43-48 | `intToIp(ipToInt(o))` gives back o for any four octets in 0..255. |
| Address.IntRoundTrip | subneteo.js:43-48 | `ipToInt(intToIp(x))` is the signed 32-bit reading of x. |
| Address.IntToIpEqual | subneteo.js:46-48 | Two integers print as the same address exactly when they agree modulo 2^32. |
| Address.ShiftedValue | subneteo.js:46-48 | Moving k addresses along moves the unsigned reading of the printed address by k, modulo 2^32. |
| Address.ReadBack | subneteo.js:156-157 | Reading a printed address back with `ipToInt` and adding k lands on the address of x + k. |
| Address.MaskOctetValue | subneteo.js:52 | For 0..8 remaining bits the octet is 256 - 2^(8-p), and every octet is one of 0, 128, 192, 224, 240, 248, 252, 254, 255. |
| Address.PrefixToMask | subneteo.js:49-57 | `prefixToMask`: the prefix is consumed eight bits per octet, clamped at 0. Each octet is 255, 256 - 2^(8-p) or 0. |
| Address.MaskShape | subneteo.js:49-57 | Every mask is well formed: four contiguous-ones octets, non-increasing left to right, 0.0.0.0 for prefixes at or below 0 and 255.255.255.255 at or above 32. |
| Address.MaskOctetBands | subneteo.js:51-55 | Octet k is 255 when at least 8 prefix bits reach it (p - 8k >= 8) and 0 when none do. |
| Address.MaskValue | subneteo.js:49-57 | For p in 0..32 the mask reads as 2^32 - 2^(32-p). |
| Address.MaskLeadingOnes | subneteo.js:49-57 | For p in 0..32 the mask has exactly p leading one-bits, and its value is (2^p - 1) * 2^(32-p): p ones followed by zeros. |
| EqualDivider.Layout | subneteo.js:69-77 | The row loop from position `from` yields count - from rows (none when from >= count), row j being the block j steps further on. |
| EqualDivider.CeilDiv8 | subneteo.js:78 | The result is the ceiling of p / 8: 8(r - 1) < p <= 8r. |
| EqualDivider.Divide | subneteo.js:58-82 | Null exactly when prefix + bits > 30. Otherwise: salto is 2^(32 - newPrefix); the mask is that of newPrefix; octeto is ceil(newPrefix / 8); there are N rows (none for N <= 0); row i is the block i steps after the base. |
| EqualDivider.DivideFailsIff | subneteo.js:63-66 | The divider fails exactly when no number of extra bits b with 2^b >= N keeps prefix + b within /30. |
| EqualDivider.DivideRows | subneteo.js:69-76 | Every row has the new prefix and the common mask. Its network is base + i * salto. It is a block of salto addresses ending at its broadcast. |
| EqualDivider.DivideContiguous | subneteo.js:70-75 | Row i + 1 starts at the address right after row i's broadcast. |
| EqualDivider.DivideWithinBase | subneteo.js:63-76 | For a base prefix of at least 0, the last broadcast lies inside the base block. |
| EqualDivider.DivideDisjoint | subneteo.js:69-76 | Distinct rows occupy disjoint raw ranges, in increasing order. |
| HostDivider.HostBlockSize | subneteo.js:87-91 | A block's size is the least power of two holding hosts + 2. Its prefix is 32 minus the log of that size, its mask is the mask of that prefix, and it records the host count. |
| HostDivider.BlockSizeLeast | subneteo.js:87-91 | No smaller power of two than the block size holds hosts + 2. |
| HostDivider.HostBlock | subneteo.js:87-102 | One turn of the host loop: the block for a host count, placed at the running address. |
| HostDivider.HostBlockAddresses | subneteo.js:92-99 | The network, gateway, PC and broadcast sit at offsets 0, 1, 2 and size - 1 from the running address, all modulo 2^32. |
| HostDivider.Placement | subneteo.js:85-104 | The running address at position j is the start plus the sizes of all earlier blocks. |
| HostDivider.Starts | subneteo.js:85-104 | Block i's raw network is the start plus the sizes of blocks 0..i-1. |
| HostDivider.DivideHosts | subneteo.js:83-106 | The divider never fails: exactly one block per host count. |
| HostDivider.SweepAt | subneteo.js:86-104 | Entry j of the loop is the block built at the address the loop has reached by then. |
| HostDivider.DivideHostsAt | subneteo.js:83-106 | Block i is the block for hosts[i], placed after all earlier blocks, in input order. |
| HostDivider.DivideHostsFirst | subneteo.js:85-94 | The first block's network is the start address. |
| HostDivider.BlockAt | subneteo.js:92-103 | Block i read as numbers: its network is the running address and its broadcast the block's last address, both modulo 2^32. |
| HostDivider.DivideHostsContiguous | subneteo.js:103 | Each later network is the previous network plus the previous size, which is the previous broadcast + 1. Blocks are not aligned to their size. |
| HostDivider.DivideHostsDistinct | subneteo.js:83-106 | When all blocks fit in the 32-bit space, no two blocks share a network address. |
| Tables.Band | subneteo.js:117-129 | The band is the least k in 1..4 whose 8k reaches the prefix, and 4 when there is none. |
| Tables.JumpOf | subneteo.js:114-129 | The jump column: the band the prefix ends in, and 256 minus the mask octet of that band. |
| Tables.JumpOfMask | subneteo.js:114-129 | For the mask of p in 0..32 the jump is 2^(8k - p) in octet k, with 8(k-1) <= p <= 8k. Scaled to that octet's weight it is the block size 2^(32-p). |
| Tables.BandIsCeil | subneteo.js:117-128 | The table's octet equals the divider's `octeto` ceil(p / 8) for p in 1..32; at p = 0 they are 1 and 0. |
| Tables.MaskOctetAt | subneteo.js:119-128 | The mask octet the jump reads is the octet for the prefix bits left after the first 8(k-1). |
| Tables.FirstValidOf | subneteo.js:156 | The first valid address is the network + 2, and it reads back as the signed value of that integer. |
| Tables.LastValidOf | subneteo.js:157 | The last valid address is the broadcast - 1, as an address and as an unsigned reading. |
| Tables.ValidRangeOfSpan | subneteo.js:156-158 | The intended cell is shown exactly when the block has at least 4 addresses. It then runs from network + 2 to broadcast - 1. |
| Tables.ValidRangeOfBlock | subneteo.js:136-158 | For a host block the cell is shown exactly when at least one host was asked for, and it starts at the PC address. |
| Tables.BlockSizeFour | subneteo.js:87-91 | A host block has at least 4 addresses exactly when at least one host was asked for. |
| Tables.ValidRangeAsWrittenOfSpan | subneteo.js:158 | The cell as written compares the signed 32-bit readings of network + 2 and network + size - 2. |
| Tables.ValidRangeAsWritten | subneteo.js:156-158 | The valid-address cell the page shows: network + 2 to broadcast - 1, or "-" when the signed reading of the first is above that of the last. |
| Tables.ValidRange | subneteo.js:156-158 | The valid-address cell as intended: the same ends, or "-" when the block has fewer than 4 addresses. |
| Tables.ValidRangeAgrees | subneteo.js:156-158 | When neither end crosses the signed boundary 2^31, the cell as written equals the intended cell. |
| Tables.ValidRangeAsWrittenGap | subneteo.js:158 | For the 256-address block at 127.255.255.4, the cell as written is "-" while the intended cell is shown. |
| Tables.GapBlock | subneteo.js:87-102 | The host divider builds exactly that block for 250 hosts at 127.255.255.4. |
| Tables.ValidRangeAsWrittenPhantom | subneteo.js:158 | For the 2-address block at 127.255.255.254, the cell as written shows the reversed range 128.0.0.0 to 127.255.255.254, while the intended cell is "-". |
| Tables.PhantomBlock | subneteo.js:87-102 | The host divider builds exactly that block for 0 hosts at 127.255.255.254. |
| Tables.SubnetRowsJump | subneteo.js:112-130 | In the subnet table every row's jump, scaled to its octet, is the division's salto. |
| Tables.SubnetRowsBroadcast | subneteo.js:131 | The subnet table's broadcast column is the row's network + salto - 1, modulo 2^32. |
| Tables.RowBroadcast | subneteo.js:75 | A row whose network lies salto - 1 below its broadcast shows that broadcast as the network + salto - 1. |
| Tables.SubnetRowOf | subneteo.js:131 | One subnet-table row: number i + 1, network, prefix, mask, the raw broadcast printed as an address, and the jump. |
| Tables.HostRowOf | subneteo.js:137-159 | One host-table row. It holds the network, mask, host count and jump, the valid-address cell as the page computes it, the intended cell, the gateway and the broadcast. |
| Tables.HostRowCells | subneteo.js:156-158 | In a host block's row, the cell the page shows appears exactly when the signed readings of network + 2 and network + size - 2 are in order. The intended cell appears exactly when at least one host was asked for. |
| Tables.HostRowAgrees | subneteo.js:156-158 | When neither end of a host block's range crosses the signed boundary 2^31, the row's cell is the intended one. |
| Commands.PoolBaseValue | subneteo.js:171 | The link pool starts at 10.10.10.0, read as 0x0A0A0A00. |
| Commands.LinkMaskIsPrefix30 | subneteo.js:176 | The literal link mask 255.255.255.252 is the mask of a /30 prefix. |
| Commands.LinkAt | subneteo.js:172-181 | Serial link k: the /30 block 4k addresses after 10.10.10.0, with the literal mask, its two router ends and its broadcast. |
| Commands.LinkValues | subneteo.js:173-179 | Link k's network, ip1, ip2 and broadcast read as 10.10.10.0 + 4k + 0, 1, 2 and 3, modulo 2^32. |
| Commands.LinkShape | subneteo.js:172-180 | Link k is an aligned /30 block. Its network is a multiple of 4, ip1 and ip2 are the two usable addresses and the broadcast is the last one. |
| Commands.LinksDistinct | subneteo.js:172-181 | In a chain of fewer than 2^30 routers, no two links share a network. |
| Commands.ConnectedHas | subneteo.js:224-227 | Router i's directly connected list holds its LAN and the links on either side. |
| Commands.Connected | subneteo.js:224-227 | `directas` of router i: its LAN, its previous link and its next link, each when it exists. |
| Commands.ConnectedIff | subneteo.js:224-227 | A network is directly connected to router i exactly when it is its LAN, its previous link or its next link. |
| Commands.FirstIndex | subneteo.js:234 | The result is -1 exactly when x is absent; otherwise it is the first position holding x. |
| Commands.PlaceOfLan | subneteo.js:234 | With distinct networks, the LAN search finds LAN k at position k. |
| Commands.PlaceOfLink | subneteo.js:241 | With distinct networks, LAN search misses link k, and the serial search finds it at position k. |
| Commands.LanAdjacent | subneteo.js:225-227 | With distinct networks, LAN m is directly connected to router m and to no other router. |
| Commands.LinkAdjacent | subneteo.js:225-227 | With distinct networks, link k is directly connected to routers k and k + 1 and to no other router. |
| Commands.ConnectedAdjacent | subneteo.js:224-246 | With distinct networks, a network is directly connected to router i exactly when its position in the chain order LAN 0, link 0, LAN 1, link 1, … is 2i - 1, 2i or 2i + 1. |
| Commands.NextHop | subneteo.js:232-245 | For any network of the chain router i is not attached to, with or without distinct networks, every index the rule takes is in range. A target further up gives ip2 of link i; a target further down gives ip1 of link i - 1. |
| Commands.NextHopToLan | subneteo.js:234-238 | With distinct networks, the next hop toward LAN k from router i != k is ip2 of link i when k > i, else ip1 of link i - 1. |
| Commands.NextHopToLink | subneteo.js:241-244 | With distinct networks, the next hop toward link k from a router at neither of its ends is ip2 of link i when k > i, else ip1 of link i - 1. |
| Commands.NextHopIsNeighbour | subneteo.js:229-247 | Every next hop is the address the neighbouring router (i + 1 or i - 1) configures on its end of the shared link. |
| Commands.DestinationNetworks | subneteo.js:220-222 | The static-route loop walks every LAN network, then every link network. |
| Commands.RoutesFrom | subneteo.js:229-249 | The static-route loop over a list of destinations for router i: a route through the next hop for each destination that is not directly connected. |
| Commands.RoutesFromSound | subneteo.js:229-248 | Every line of the route loop is a route to a walked destination that is not directly connected, through that destination's next hop. |
| Commands.RoutesFromComplete | subneteo.js:229-248 | Every walked destination that is not directly connected gets its route. |
| Commands.RoutesFromLength | subneteo.js:229-248 | The loop emits one route per walked destination, minus those that are directly connected. |
| Commands.ConnectedDistinct | subneteo.js:224-227 | With distinct networks, router i's connected networks are distinct chain members, one for each of its LAN, previous link and next link. |
| Commands.StaticRoutesExact | subneteo.js:219-248 | Static routes are exact in both directions: every line is a route to an unconnected chain network through its next hop, and every unconnected network gets one. |
| Commands.RouteCount | subneteo.js:219-248 | With all 2n networks distinct, router i emits 2n minus its number of connected networks routes. |
| Commands.RoutingKinds | subneteo.js:209-249 | The routing section holds only routing commands. |
| Commands.RouterLan | subneteo.js:187-193 | Router i configures a LAN interface exactly when i < n, and then it sets the LAN's gateway and mask. |
| Commands.RouterSerialPorts | subneteo.js:195-207 | Router i opens serial port k exactly when it is one of link k's two ends, router k or router k + 1. |
| Commands.RouterLinkEnds | subneteo.js:195-207 | Router i sets `clock rate 64000` exactly when i < n, and it takes ip1 of its next link and ip2 of its previous link. |
| Commands.BlockTitles | subneteo.js:183-185 | Router i's section carries one banner, and it names router i. |
| Commands.BlocksTitlesStep | subneteo.js:182-185 | The banners from router i on are router i's, then those from router i + 1 on. |
| Commands.BlocksTitles | subneteo.js:182-252 | The banners from router i on name routers i to n, in order. |
| Commands.GenerateTitles | subneteo.js:166-254 | For n LANs the output carries n + 1 banners naming R0 to Rn, in order. |
| Commands.RipAnnounces | subneteo.js:209-217 | In RIP mode router i announces exactly its connected networks, in the order LAN, previous link, next link. In static mode it announces none. |
| Commands.RouterBlock | subneteo.js:182-252 | Router i's section: banner, LAN interface, serial interfaces, routing section and closing rule. |
| Commands.Generate | subneteo.js:166-254 | `generarComandos`: the links laid out once, then one section per router R0..Rn, then the closing reminder. |
| Planner.PlanOutcome | subneteo.js:15-33 | The plan fails with Incomplete exactly when the host list is empty, and with NoDivision exactly when the divider refuses. It fails with NoSubnets exactly when no subnets were asked for, and it succeeds otherwise. |
| Planner.Plan | subneteo.js:4-40 | `calcular` on parsed input: the error exits in the page's order, or the division, host blocks, both tables and the commands. |
| Planner.PlanValue | subneteo.js:21-29 | A request with hosts, N >= 1 and room for the subnet bits within /30 succeeds, and its plan is the assembly of the divider's result. |
| Planner.PlanStart | subneteo.js:26-29 | The host blocks start one past the last broadcast, which is base + N * salto. |
| Planner.PlanFirstBlock | subneteo.js:29 | The first host block's network is that start address. |
| Planner.PlanShape | subneteo.js:29-39 | There is one host block and one host-table row per host count, in order, and one subnet row per subnet. The commands are those generated for the host blocks. |
| Planner.PlanReachesGap | subneteo.js:29-36 | For the request 127.255.255.0/30 with one subnet and 250 hosts, the plan's host row shows "-" although the intended cell is shown. |
| Planner.PlanReachesPhantom | subneteo.js:29-36 | For the request 127.255.255.250/30 with one subnet and 0 hosts, the plan's host row shows a range although the intended cell is "-". |

## Left out

- **Page I/O:** the DOM reads and writes, the `alert`s and the HTML markup of `calcular` and `generarTablas`. They are presentation. Their pure content is kept: the `Plan` result carries the division, the start address, the host blocks, both tables' rows and the command lines.
- **Input parsing:**
  - `trim`, `split('/')` and `split(',')`;
  - the leniency of `parseInt` and NaN propagation when "/p" is missing;
  - the `isNaN` filter on the host list, and the empty-field test.

  These are string handling. `Plan` takes the base address, prefix, subnet count and host counts already parsed as integers, and the routing choice as `Rip | Static` (any value other than `'rip'` means static).
- **The `try`/`catch` in `calcularSubredes`:** on parsed integer input nothing in its body throws, so its `null` is only the prefix check.
- **Floating-point `Math.pow` and numbers beyond 2^53:** powers and addresses are exact integers. The two agree while every value stays below 2^53. They can differ for very negative prefixes, for host counts near 2^53, or when the host divider's running address (the start plus the sizes of all earlier blocks) passes 2^53. In that last case the source rounds the sum and the model does not.
- **The `hostSubnets` null test of `calcular`:** `calcularSubredesParaHosts` never returns null, and `HostDivider.DivideHosts` states that it always yields one block per host count.
- **N <= 0:** `subredes[subredes.length-1]` is undefined, and reading `.broadcast` from it throws uncaught in the page. The model reports this as the `NoSubnets` error and does not model a crash.
- **The divider's own `mascara`, `salto` and `octeto`:** they are passed to `generarTablas` and ignored there, because each row recomputes its jump. They are kept in `Division`, and `Tables.BandIsCeil` relates the two octet positions.
- **The `nextHop = ''` fallback:** it is unreachable, because every destination comes from the LAN or link lists. `Commands.NextHop` requires the destination to be one of them.
- **Text rendering of lines:** the exact strings, and their joining with newlines, are replaced by one `Line` constructor per template line carrying its values.
- Commands.NextHopToLan: assumes all 2n networks are distinct. Without that, the source's `findIndex` can pick another copy of the network. `Commands.NextHop` itself holds without the assumption.
- Commands.NextHopToLink: assumes all 2n networks are distinct, for the same reason.
- Commands.ConnectedAdjacent: assumes all 2n networks are distinct, for the same reason.
- Commands.LanAdjacent: assumes all 2n networks are distinct, for the same reason.
- Commands.LinkAdjacent: assumes all 2n networks are distinct, for the same reason.
- Commands.RouteCount: assumes all 2n networks are distinct. Otherwise a duplicate of a connected network is skipped too.
- HostDivider.DivideHostsDistinct: assumes all blocks fit in 2^32 addresses. The source has no exhaustion check, and its addresses silently wrap.
- Commands.LinksDistinct: assumes fewer than 2^30 links, because beyond that the pool wraps round the 32-bit space.

## Findings

| source | as written | input that shows it | evidently intended | confidence | as-written member | corrected member |
|---|---|---|---|---|---|---|
| subneteo.js:156-158 | The valid-address cell compares `ipToInt(ipValidaIni) <= ipToInt(ipValidaFin)`, and those are signed 32-bit readings. A block that straddles 2^31 has its first valid address read as positive and its last as negative, so the non-empty range is shown as "-". | Base 127.255.255.0/30, one subnet, hosts "250". The host block is 127.255.255.4 to 128.0.0.3. 127.255.255.6 reads 2147483398 and 128.0.0.2 reads -2147483646. | Show the range exactly when the block has room between network + 2 and broadcast - 1, which is a size of at least 4. | not executed | Tables.ValidRangeAsWrittenGap | Tables.ValidRangeOfSpan |
| subneteo.js:156-158 | The same signed comparison, the other way round. In a 2-address block ending at 127.255.255.255, the first "valid" address 128.0.0.0 reads as -2^31, below the last one, so an empty range is shown reversed. | Base 127.255.255.250/30, one subnet, hosts "0". The host block is 127.255.255.254 to 127.255.255.255. 128.0.0.0 reads -2147483648 and 127.255.255.254 reads 2147483646, so the cell shows "128.0.0.0 – 127.255.255.254". | Show "-" for a block with no usable address, which is a size below 4. | not executed | Tables.ValidRangeAsWrittenPhantom | Tables.ValidRangeOfBlock |
