/** The router configuration generator (`generarComandos`): a chain of n + 1
    routers R0..Rn joined by n serial /30 links taken in order from the pool
    at 10.10.10.0, router i (for i < n) also serving LAN i. Every router gets
    its interface lines and then either RIP version 2 or static routes. The
    text is kept as a sequence of `Line` values, one constructor per line
    template. */
module Commands {
  import opened Address
  import opened HostDivider

  /** The routing choice: the value "rip" selects RIP, any other value static routes. */
  datatype Routing = Rip | Static

  /** One generated line. */
  datatype Line =
    | Rule                                            // the rule opening a router's banner
    | RouterTitle(router: int)                        // the banner naming router R<router>
    | InterfaceGig                                    // the LAN interface gig0/0
    | IpAddress(address: Dotted, mask: Dotted)        // the address of the interface just opened
    | NoShutdown
    | SwitchNote(lan: int)                            // the note naming switch S<lan> and PC<lan>
    | PcNote(lan: int, pc: Dotted, mask: Dotted, gateway: Dotted)
    | InterfaceSerial(port: int)                      // the serial interface serial0/0/<port>
    | ClockRate(rate: int)
    | RouterRip
    | Version2
    | RipNetwork(network: Dotted)
    | NoAutoSummary
    | IpRoute(destination: Dotted, destMask: Dotted, nextHop: Dotted)
    | RuleEnd                                         // the rule closing a router's section
    | Reminder                                        // the closing reminder to address the PCs

  /** One serial /30 link: its network, mask, the two router ends and its broadcast. */
  datatype SerialLink = SerialLink(network: Dotted, mask: Dotted, ip1: Dotted, ip2: Dotted, broadcast: Dotted)

  /** The first address of the link pool. */
  const PoolBase: Dotted := Dotted(10, 10, 10, 0)

  /** The mask every link carries, written out as a literal in the generator. */
  const LinkMask: Dotted := Dotted(255, 255, 255, 252)

  /** The clock rate set on the lower-numbered end of every link. */
  const LinkRate: int := 64000

  /** Link k: four addresses starting 4k after the pool base. */
  function LinkAt(k: int): SerialLink {
    var net := IpToInt(PoolBase) + k * 4;
    SerialLink(IntToIp(net), LinkMask, IntToIp(net + 1), IntToIp(net + 2), IntToIp(net + 3))
  }

  /** The links of a chain of n + 1 routers. */
  function SerialLinks(n: nat): (r: seq<SerialLink>)
    ensures |r| == n
    ensures forall k :: 0 <= k < n ==> r[k] == LinkAt(k)
  {
    seq(n, k => LinkAt(k))
  }

  lemma PoolBaseValue()
    ensures IpToInt(PoolBase) == 0x0A0A_0A00
  {
    assert WellFormed(PoolBase);
    ToInt32Unique(0x0A0A_0A00, 0x0A0A_0A00);
  }

  /** The link mask is the mask of a /30 prefix. */
  lemma LinkMaskIsPrefix30()
    ensures LinkMask == PrefixToMask(30)
  {
    MaskOctetValue(6);
    Bits.Pow2Table();
  }

  /** Link k is an aligned block of four addresses in the 32-bit space: its
      network is a multiple of 4, the router ends are the two usable addresses
      and the broadcast is the last one, under the /30 mask. */
  lemma LinkShape(k: int)
    ensures var l := LinkAt(k);
      var v := Value(l.network);
      && v == (0x0A0A_0A00 + 4 * k) % Two32
      && v % 4 == 0
      && Value(l.ip1) == v + 1
      && Value(l.ip2) == v + 2
      && Value(l.broadcast) == v + 3
      && l.mask == PrefixToMask(30)
  {
    LinkValues(k);
    LinkMaskIsPrefix30();
    AlignedOffsets(0x0A0A_0A00 + 4 * k, 0x0282_8280 + k);
  }

  /** The four addresses of link k read 4k, 4k + 1, 4k + 2 and 4k + 3 past
      the pool base, modulo 2^32. */
  lemma LinkValues(k: int)
    ensures Value(LinkAt(k).network) == (0x0A0A_0A00 + 4 * k) % Two32
    ensures Value(LinkAt(k).ip1) == (0x0A0A_0A00 + 4 * k + 1) % Two32
    ensures Value(LinkAt(k).ip2) == (0x0A0A_0A00 + 4 * k + 2) % Two32
    ensures Value(LinkAt(k).broadcast) == (0x0A0A_0A00 + 4 * k + 3) % Two32
  {
    PoolBaseValue();
  }

  /** Within an aligned block of four, the offsets 1 to 3 do not wrap. */
  lemma AlignedOffsets(net: int, q: int)
    requires net == 4 * q
    ensures (net % Two32) % 4 == 0
    ensures (net + 1) % Two32 == net % Two32 + 1
    ensures (net + 2) % Two32 == net % Two32 + 2
    ensures (net + 3) % Two32 == net % Two32 + 3
  {
    var d := net / Two32;
    var m := net % Two32;
    assert m == 4 * (q - 0x4000_0000 * d);
    assert m <= Two32 - 4;
  }

  /** The links of a chain of fewer than 2^30 routers have distinct networks. */
  lemma LinksDistinct(k: int, j: int)
    requires 0 <= k < j < 0x4000_0000
    ensures LinkAt(k).network != LinkAt(j).network
  {
    LinkValues(k);
    LinkValues(j);
    DistinctMod(0x0A0A_0A00 + 4 * k, 0x0A0A_0A00 + 4 * j);
  }

  /** The LAN networks, in router order. */
  function LanNets(hosts: seq<HostSubnet>): seq<Dotted> {
    seq(|hosts|, k requires 0 <= k < |hosts| => hosts[k].network)
  }

  /** The link networks, in link order. */
  function LinkNets(links: seq<SerialLink>): seq<Dotted> {
    seq(|links|, k requires 0 <= k < |links| => links[k].network)
  }

  /** Every network of the chain: the LANs first, then the links. */
  function AllNets(hosts: seq<HostSubnet>, links: seq<SerialLink>): seq<Dotted> {
    LanNets(hosts) + LinkNets(links)
  }

  predicate Distinct(xs: seq<Dotted>) {
    forall a, b :: 0 <= a < b < |xs| ==> xs[a] != xs[b]
  }

  /** The networks router i is attached to, in the order LAN, previous link,
      next link; both the RIP section and the static-route filter use them. */
  function Connected(hosts: seq<HostSubnet>, links: seq<SerialLink>, i: int): seq<Dotted>
    requires |links| == |hosts| && 0 <= i <= |hosts|
  {
    (if i < |hosts| then [hosts[i].network] else [])
    + (if i > 0 then [links[i - 1].network] else [])
    + (if i < |links| then [links[i].network] else [])
  }

  /** `findIndex` by equality: the first position holding x, or -1. */
  function FirstIndex(xs: seq<Dotted>, x: Dotted): (r: int)
    ensures r == -1 <==> x !in xs
    ensures r != -1 ==> 0 <= r < |xs| && xs[r] == x && x !in xs[..r]
  {
    if |xs| == 0 then -1
    else if xs[0] == x then 0
    else
      var t := FirstIndex(xs[1..], x);
      assert xs == [xs[0]] + xs[1..];
      if t == -1 then -1
      else
        assert xs[..t + 1] == [xs[0]] + xs[1..][..t];
        t + 1
  }

  /** Where a network sits on the chain, counted in half steps: LAN k at 2k,
      beside router k, and link k at 2k + 1, between routers k and k + 1.
      As in the next-hop rule, the LANs are searched first. */
  function Place(hosts: seq<HostSubnet>, links: seq<SerialLink>, x: Dotted): int {
    var lan := FirstIndex(LanNets(hosts), x);
    if lan != -1 then 2 * lan else 2 * FirstIndex(LinkNets(links), x) + 1
  }

  /** The next hop router i uses for a network it is not attached to: the far
      end of the next link when the network lies further up the chain, the
      near end of the previous link when it lies further down. Every index
      it takes is in range. */
  function NextHop(hosts: seq<HostSubnet>, links: seq<SerialLink>, i: int, x: Dotted): (r: Dotted)
    requires |links| == |hosts| && 0 <= i <= |hosts|
    requires x in AllNets(hosts, links) && x !in Connected(hosts, links, i)
    ensures var p := Place(hosts, links, x);
      && (p < 2 * i - 1 || 2 * i + 1 < p)
      && (2 * i + 1 < p ==> i < |links| && r == links[i].ip2)
      && (p < 2 * i - 1 ==> 0 < i && r == links[i - 1].ip1)
  {
    ConnectedHas(hosts, links, i);
    var lan := FirstIndex(LanNets(hosts), x);
    if lan != -1 then
      assert x == hosts[lan].network;
      assert lan != i;
      if i < lan then links[i].ip2 else links[i - 1].ip1
    else
      // x is a link network, so this search succeeds
      var ser := FirstIndex(LinkNets(links), x);
      assert x == links[ser].network;
      assert ser != i - 1 && ser != i;
      if i <= ser then links[i].ip2 else links[i - 1].ip1
  }

  /** Router i is attached to its own LAN and to the links on either side. */
  lemma ConnectedHas(hosts: seq<HostSubnet>, links: seq<SerialLink>, i: int)
    requires |links| == |hosts| && 0 <= i <= |hosts|
    ensures i < |hosts| ==> hosts[i].network in Connected(hosts, links, i)
    ensures i < |hosts| ==> links[i].network in Connected(hosts, links, i)
    ensures 0 < i ==> links[i - 1].network in Connected(hosts, links, i)
  {
  }

  /** One destination of the static-route loop: a network and its mask. */
  datatype Dest = Dest(network: Dotted, mask: Dotted)

  /** The destinations the static-route loop walks: every LAN with its mask,
      then every link with the link mask. */
  function Destinations(hosts: seq<HostSubnet>, links: seq<SerialLink>): seq<Dest> {
    seq(|hosts|, k requires 0 <= k < |hosts| => Dest(hosts[k].network, hosts[k].mask))
    + seq(|links|, k requires 0 <= k < |links| => Dest(links[k].network, links[k].mask))
  }

  function Networks(ds: seq<Dest>): seq<Dotted> {
    seq(|ds|, k requires 0 <= k < |ds| => ds[k].network)
  }

  lemma DestinationNetworks(hosts: seq<HostSubnet>, links: seq<SerialLink>)
    ensures Networks(Destinations(hosts, links)) == AllNets(hosts, links)
  {
  }

  /** The static-route loop over the destinations ds, for router i. */
  function RoutesFrom(hosts: seq<HostSubnet>, links: seq<SerialLink>, i: int, ds: seq<Dest>): seq<Line>
    requires |links| == |hosts| && 0 <= i <= |hosts|
    requires forall d :: d in ds ==> d.network in AllNets(hosts, links)
    decreases |ds|
  {
    if |ds| == 0 then []
    else
      var d := ds[0];
      (if d.network in Connected(hosts, links, i) then []
       else [IpRoute(d.network, d.mask, NextHop(hosts, links, i, d.network))])
      + RoutesFrom(hosts, links, i, ds[1..])
  }

  /** The static routes of router i. */
  function StaticRoutes(hosts: seq<HostSubnet>, links: seq<SerialLink>, i: int): seq<Line>
    requires |links| == |hosts| && 0 <= i <= |hosts|
  {
    var ds := Destinations(hosts, links);
    DestinationsIn(hosts, links);
    RoutesFrom(hosts, links, i, ds)
  }

  lemma DestinationsIn(hosts: seq<HostSubnet>, links: seq<SerialLink>)
    ensures forall d :: d in Destinations(hosts, links) ==> d.network in AllNets(hosts, links)
  {
    var ds := Destinations(hosts, links);
    DestinationNetworks(hosts, links);
    assert forall k :: 0 <= k < |ds| ==> Networks(ds)[k] == ds[k].network;
  }

  /** The three-line banner naming router i. */
  function Banner(i: int): seq<Line> {
    [Rule, RouterTitle(i), Rule]
  }

  /** The LAN interface of router i, with the notes on its switch and PC. */
  function LanLines(hosts: seq<HostSubnet>, i: int): seq<Line>
    requires 0 <= i
  {
    if i < |hosts| then
      var h := hosts[i];
      [InterfaceGig, IpAddress(h.gateway, h.mask), NoShutdown,
       SwitchNote(i + 1), PcNote(i + 1, h.pcIp, h.mask, h.gateway)]
    else []
  }

  /** The serial interfaces of router i: the far end of the previous link,
      then the near end of the next link with its clock rate. */
  function SerialLines(links: seq<SerialLink>, i: int): seq<Line>
    requires 0 <= i <= |links|
  {
    (if i > 0 then [InterfaceSerial(i - 1), IpAddress(links[i - 1].ip2, links[i - 1].mask), NoShutdown] else [])
    + (if i < |links| then [InterfaceSerial(i), IpAddress(links[i].ip1, links[i].mask), ClockRate(LinkRate), NoShutdown] else [])
  }

  /** The RIP version 2 section of router i, announcing its attached networks. */
  function RipLines(hosts: seq<HostSubnet>, links: seq<SerialLink>, i: int): seq<Line>
    requires |links| == |hosts| && 0 <= i <= |hosts|
  {
    var c := Connected(hosts, links, i);
    [RouterRip, Version2] + seq(|c|, k requires 0 <= k < |c| => RipNetwork(c[k])) + [NoAutoSummary]
  }

  /** Everything generated for router i. */
  function RouterBlock(hosts: seq<HostSubnet>, links: seq<SerialLink>, routing: Routing, i: int): seq<Line>
    requires |links| == |hosts| && 0 <= i <= |hosts|
  {
    Banner(i) + LanLines(hosts, i) + SerialLines(links, i) + RoutingLines(hosts, links, routing, i) + [RuleEnd]
  }

  /** The routing section of router i. */
  function RoutingLines(hosts: seq<HostSubnet>, links: seq<SerialLink>, routing: Routing, i: int): seq<Line>
    requires |links| == |hosts| && 0 <= i <= |hosts|
  {
    if routing == Rip then RipLines(hosts, links, i) else StaticRoutes(hosts, links, i)
  }

  /** The router loop from router i on. */
  function Blocks(hosts: seq<HostSubnet>, links: seq<SerialLink>, routing: Routing, i: int): seq<Line>
    requires |links| == |hosts| && 0 <= i <= |hosts| + 1
    decreases |hosts| + 1 - i
  {
    if i == |hosts| + 1 then [] else RouterBlock(hosts, links, routing, i) + Blocks(hosts, links, routing, i + 1)
  }

  /** `generarComandos(hostSubnets, tipo)`: the links are laid out once, then
      every router's section follows, then the closing reminder. */
  function Generate(hosts: seq<HostSubnet>, routing: Routing): seq<Line> {
    Blocks(hosts, SerialLinks(|hosts|), routing, 0) + [Reminder]
  }

  // ---------------------------------------------------------------------
  // Where the networks sit on the chain

  /** With all networks distinct, LAN k sits beside router k. */
  lemma PlaceOfLan(hosts: seq<HostSubnet>, links: seq<SerialLink>, k: int)
    requires Distinct(AllNets(hosts, links))
    requires 0 <= k < |hosts|
    ensures Place(hosts, links, hosts[k].network) == 2 * k
  {
    var all := AllNets(hosts, links);
    var lan := FirstIndex(LanNets(hosts), hosts[k].network);
    assert all[k] == hosts[k].network;
    assert lan != -1 && all[lan] == all[k];
  }

  /** With all networks distinct, link k sits between routers k and k + 1. */
  lemma PlaceOfLink(hosts: seq<HostSubnet>, links: seq<SerialLink>, k: int)
    requires Distinct(AllNets(hosts, links))
    requires 0 <= k < |links|
    ensures Place(hosts, links, links[k].network) == 2 * k + 1
  {
    var all := AllNets(hosts, links);
    var n := |hosts|;
    var x := links[k].network;
    assert all[n + k] == x;
    assert x !in LanNets(hosts) by {
      forall j | 0 <= j < n
        ensures LanNets(hosts)[j] != x
      {
        assert LanNets(hosts)[j] == all[j];
      }
    }
    var ser := FirstIndex(LinkNets(links), x);
    assert ser != -1 && all[n + ser] == x;
  }

  /** Router i is attached to exactly its LAN and the links on either side. */
  lemma ConnectedIff(hosts: seq<HostSubnet>, links: seq<SerialLink>, i: int, x: Dotted)
    requires |links| == |hosts| && 0 <= i <= |hosts|
    ensures x in Connected(hosts, links, i) <==>
      || (i < |hosts| && x == hosts[i].network)
      || (0 < i && x == links[i - 1].network)
      || (i < |links| && x == links[i].network)
  {
  }

  /** With all networks distinct, a router is attached to a network exactly
      when the network lies at most half a step away on the chain. */
  lemma ConnectedAdjacent(hosts: seq<HostSubnet>, links: seq<SerialLink>, i: int, x: Dotted)
    requires |links| == |hosts| && Distinct(AllNets(hosts, links))
    requires 0 <= i <= |hosts|
    requires x in AllNets(hosts, links)
    ensures x in Connected(hosts, links, i) <==> 2 * i - 1 <= Place(hosts, links, x) <= 2 * i + 1
  {
    var all := AllNets(hosts, links);
    var n := |hosts|;
    var m :| 0 <= m < |all| && all[m] == x;
    if m < n {
      assert x == hosts[m].network;
      LanAdjacent(hosts, links, i, m);
      PlaceOfLan(hosts, links, m);
    } else {
      assert x == links[m - n].network;
      LinkAdjacent(hosts, links, i, m - n);
      PlaceOfLink(hosts, links, m - n);
    }
  }

  /** LAN m is attached to router m only. */
  lemma LanAdjacent(hosts: seq<HostSubnet>, links: seq<SerialLink>, i: int, m: int)
    requires |links| == |hosts| && Distinct(AllNets(hosts, links))
    requires 0 <= i <= |hosts| && 0 <= m < |hosts|
    ensures hosts[m].network in Connected(hosts, links, i) <==> m == i
  {
    var all := AllNets(hosts, links);
    var n := |hosts|;
    ConnectedIff(hosts, links, i, hosts[m].network);
    assert all[m] == hosts[m].network;
    if 0 < i { assert all[n + i - 1] == links[i - 1].network; }
    if i < n { assert all[i] == hosts[i].network && all[n + i] == links[i].network; }
  }

  /** Link k is attached to routers k and k + 1 only. */
  lemma LinkAdjacent(hosts: seq<HostSubnet>, links: seq<SerialLink>, i: int, k: int)
    requires |links| == |hosts| && Distinct(AllNets(hosts, links))
    requires 0 <= i <= |hosts| && 0 <= k < |links|
    ensures links[k].network in Connected(hosts, links, i) <==> k == i - 1 || k == i
  {
    var all := AllNets(hosts, links);
    var n := |hosts|;
    ConnectedIff(hosts, links, i, links[k].network);
    assert all[n + k] == links[k].network;
    if 0 < i { assert all[n + i - 1] == links[i - 1].network; }
    if i < n { assert all[i] == hosts[i].network && all[n + i] == links[i].network; }
  }

  // ---------------------------------------------------------------------
  // Next hops

  /** The next hop toward LAN k from router i != k: the far end of link i,
      router i + 1, when k lies above; the near end of link i - 1, router
      i - 1, when it lies below. */
  lemma NextHopToLan(hosts: seq<HostSubnet>, links: seq<SerialLink>, i: int, k: int)
    requires |links| == |hosts| && Distinct(AllNets(hosts, links))
    requires 0 <= i <= |hosts| && 0 <= k < |hosts| && k != i
    ensures hosts[k].network in AllNets(hosts, links)
    ensures hosts[k].network !in Connected(hosts, links, i)
    ensures NextHop(hosts, links, i, hosts[k].network) == if k > i then links[i].ip2 else links[i - 1].ip1
  {
    var x := hosts[k].network;
    assert AllNets(hosts, links)[k] == x;
    PlaceOfLan(hosts, links, k);
    ConnectedAdjacent(hosts, links, i, x);
  }

  /** The next hop toward link k from a router at neither of its ends: the
      neighbour on the side of the link. */
  lemma NextHopToLink(hosts: seq<HostSubnet>, links: seq<SerialLink>, i: int, k: int)
    requires |links| == |hosts| && Distinct(AllNets(hosts, links))
    requires 0 <= i <= |hosts| && 0 <= k < |hosts| && k != i && k != i - 1
    ensures links[k].network in AllNets(hosts, links)
    ensures links[k].network !in Connected(hosts, links, i)
    ensures NextHop(hosts, links, i, links[k].network) == if k > i then links[i].ip2 else links[i - 1].ip1
  {
    var x := links[k].network;
    assert AllNets(hosts, links)[|hosts| + k] == x;
    PlaceOfLink(hosts, links, k);
    ConnectedAdjacent(hosts, links, i, x);
  }

  /** Every next hop is the address the neighbouring router gives its end of
      the shared link: router i + 1 for a network further up the chain,
      router i - 1 for one further down. */
  lemma NextHopIsNeighbour(hosts: seq<HostSubnet>, links: seq<SerialLink>, routing: Routing, i: int, x: Dotted)
    requires |links| == |hosts| && 0 <= i <= |hosts|
    requires x in AllNets(hosts, links) && x !in Connected(hosts, links, i)
    ensures var h := NextHop(hosts, links, i, x);
      || (i < |hosts| && h == links[i].ip2 && IpAddress(h, links[i].mask) in RouterBlock(hosts, links, routing, i + 1))
      || (0 < i && h == links[i - 1].ip1 && IpAddress(h, links[i - 1].mask) in RouterBlock(hosts, links, routing, i - 1))
  {
    if 2 * i + 1 < Place(hosts, links, x) {
      RouterLinkEnds(hosts, links, routing, i + 1);
    } else {
      RouterLinkEnds(hosts, links, routing, i - 1);
    }
  }

  // ---------------------------------------------------------------------
  // Static routes

  /** Every line of the route loop is a route to a destination of ds that
      router i is not attached to, through that destination's next hop. */
  lemma {:induction false} RoutesFromSound(hosts: seq<HostSubnet>, links: seq<SerialLink>, i: int, ds: seq<Dest>)
    requires |links| == |hosts| && 0 <= i <= |hosts|
    requires forall d :: d in ds ==> d.network in AllNets(hosts, links)
    ensures forall l :: l in RoutesFrom(hosts, links, i, ds) ==>
      && l.IpRoute?
      && Dest(l.destination, l.destMask) in ds
      && l.destination !in Connected(hosts, links, i)
      && l.nextHop == NextHop(hosts, links, i, l.destination)
    decreases |ds|
  {
    if |ds| > 0 {
      RoutesFromSound(hosts, links, i, ds[1..]);
    }
  }

  /** Every destination of ds router i is not attached to gets its route. */
  lemma {:induction false} RoutesFromComplete(hosts: seq<HostSubnet>, links: seq<SerialLink>, i: int, ds: seq<Dest>)
    requires |links| == |hosts| && 0 <= i <= |hosts|
    requires forall d :: d in ds ==> d.network in AllNets(hosts, links)
    ensures forall d :: d in ds && d.network !in Connected(hosts, links, i) ==>
      IpRoute(d.network, d.mask, NextHop(hosts, links, i, d.network)) in RoutesFrom(hosts, links, i, ds)
    decreases |ds|
  {
    if |ds| > 0 {
      RoutesFromComplete(hosts, links, i, ds[1..]);
    }
  }

  /** Number of positions of xs that hold a member of c. */
  function CountIn(xs: seq<Dotted>, c: seq<Dotted>): nat {
    if |xs| == 0 then 0 else (if xs[0] in c then 1 else 0) + CountIn(xs[1..], c)
  }

  /** The route loop drops exactly the destinations router i is attached to. */
  lemma {:induction false} RoutesFromLength(hosts: seq<HostSubnet>, links: seq<SerialLink>, i: int, ds: seq<Dest>)
    requires |links| == |hosts| && 0 <= i <= |hosts|
    requires forall d :: d in ds ==> d.network in AllNets(hosts, links)
    ensures |RoutesFrom(hosts, links, i, ds)| == |ds| - CountIn(Networks(ds), Connected(hosts, links, i))
    decreases |ds|
  {
    if |ds| > 0 {
      RoutesFromLength(hosts, links, i, ds[1..]);
      assert Networks(ds)[1..] == Networks(ds[1..]);
    }
  }

  lemma {:induction false} CountInSplit(xs: seq<Dotted>, y: Dotted, c: seq<Dotted>)
    requires y !in c
    ensures CountIn(xs, [y] + c) == CountIn(xs, [y]) + CountIn(xs, c)
  {
    if |xs| > 0 {
      CountInSplit(xs[1..], y, c);
    }
  }

  lemma {:induction false} CountInAbsent(xs: seq<Dotted>, y: Dotted)
    requires y !in xs
    ensures CountIn(xs, [y]) == 0
  {
    if |xs| > 0 {
      CountInAbsent(xs[1..], y);
    }
  }

  lemma {:induction false} CountInOnce(xs: seq<Dotted>, y: Dotted)
    requires Distinct(xs) && y in xs
    ensures CountIn(xs, [y]) == 1
  {
    if xs[0] == y {
      assert y !in xs[1..];
      CountInAbsent(xs[1..], y);
    } else {
      CountInOnce(xs[1..], y);
    }
  }

  lemma {:induction false} CountInEmpty(xs: seq<Dotted>)
    ensures CountIn(xs, []) == 0
  {
    if |xs| > 0 {
      CountInEmpty(xs[1..]);
    }
  }

  /** In a sequence without repeats, |c| distinct members of it are found at
      exactly |c| positions. */
  lemma {:induction false} CountInAll(xs: seq<Dotted>, c: seq<Dotted>)
    requires Distinct(xs) && Distinct(c)
    requires forall y :: y in c ==> y in xs
    ensures CountIn(xs, c) == |c|
    decreases |c|
  {
    if |c| == 0 {
      CountInEmpty(xs);
    } else {
      assert c == [c[0]] + c[1..];
      assert c[0] !in c[1..];
      CountInSplit(xs, c[0], c[1..]);
      CountInOnce(xs, c[0]);
      CountInAll(xs, c[1..]);
    }
  }

  /** With all networks distinct, the networks of router i are distinct
      members of the chain: two for a router with a LAN, plus one for a
      router with a previous link. */
  lemma ConnectedDistinct(hosts: seq<HostSubnet>, links: seq<SerialLink>, i: int)
    requires |links| == |hosts| && Distinct(AllNets(hosts, links))
    requires 0 <= i <= |hosts|
    ensures Distinct(Connected(hosts, links, i))
    ensures forall y :: y in Connected(hosts, links, i) ==> y in AllNets(hosts, links)
    ensures |Connected(hosts, links, i)| == (if i < |hosts| then 2 else 0) + (if 0 < i then 1 else 0)
  {
    var all := AllNets(hosts, links);
    var n := |hosts|;
    if 0 < i { assert all[n + i - 1] == links[i - 1].network; }
    if i < n { assert all[i] == hosts[i].network && all[n + i] == links[i].network; }
  }

  /** The static routes of router i: one for every destination it is not
      attached to, through that destination's next hop, and no other line. */
  lemma StaticRoutesExact(hosts: seq<HostSubnet>, links: seq<SerialLink>, i: int)
    requires |links| == |hosts| && 0 <= i <= |hosts|
    ensures forall l :: l in StaticRoutes(hosts, links, i) ==>
      && l.IpRoute?
      && Dest(l.destination, l.destMask) in Destinations(hosts, links)
      && l.destination in AllNets(hosts, links)
      && l.destination !in Connected(hosts, links, i)
      && l.nextHop == NextHop(hosts, links, i, l.destination)
    ensures forall d :: d in Destinations(hosts, links) && d.network !in Connected(hosts, links, i) ==>
      d.network in AllNets(hosts, links) &&
      IpRoute(d.network, d.mask, NextHop(hosts, links, i, d.network)) in StaticRoutes(hosts, links, i)
  {
    var ds := Destinations(hosts, links);
    DestinationsIn(hosts, links);
    RoutesFromSound(hosts, links, i, ds);
    RoutesFromComplete(hosts, links, i, ds);
  }

  /** With all 2n networks distinct, router i has one static route for each
      of the 2n networks minus those it is attached to. */
  lemma RouteCount(hosts: seq<HostSubnet>, links: seq<SerialLink>, i: int)
    requires |links| == |hosts| && Distinct(AllNets(hosts, links))
    requires 0 <= i <= |hosts|
    ensures |StaticRoutes(hosts, links, i)| == 2 * |hosts| - |Connected(hosts, links, i)|
  {
    var ds := Destinations(hosts, links);
    DestinationsIn(hosts, links);
    DestinationNetworks(hosts, links);
    RoutesFromLength(hosts, links, i, ds);
    ConnectedDistinct(hosts, links, i);
    CountInAll(AllNets(hosts, links), Connected(hosts, links, i));
  }

  // ---------------------------------------------------------------------
  // The shape of the generated text

  /** The routing section holds routing commands only. */
  lemma RoutingKinds(hosts: seq<HostSubnet>, links: seq<SerialLink>, routing: Routing, i: int)
    requires |links| == |hosts| && 0 <= i <= |hosts|
    ensures forall l :: l in RoutingLines(hosts, links, routing, i) ==>
      l.IpRoute? || l.RouterRip? || l.Version2? || l.RipNetwork? || l.NoAutoSummary?
  {
    if routing == Static {
      StaticRoutesExact(hosts, links, i);
    }
  }

  /** A line is in router i's section when it is in one of its parts. */
  lemma InBlock(hosts: seq<HostSubnet>, links: seq<SerialLink>, routing: Routing, i: int, l: Line)
    requires |links| == |hosts| && 0 <= i <= |hosts|
    ensures l in RouterBlock(hosts, links, routing, i) <==>
      || l in Banner(i) || l in LanLines(hosts, i) || l in SerialLines(links, i)
      || l in RoutingLines(hosts, links, routing, i) || l == RuleEnd
  {
  }

  /** Router i configures its LAN interface, at the LAN's gateway, exactly
      when i < n. */
  lemma RouterLan(hosts: seq<HostSubnet>, links: seq<SerialLink>, routing: Routing, i: int)
    requires |links| == |hosts| && 0 <= i <= |hosts|
    ensures InterfaceGig in RouterBlock(hosts, links, routing, i) <==> i < |hosts|
    ensures i < |hosts| ==> IpAddress(hosts[i].gateway, hosts[i].mask) in RouterBlock(hosts, links, routing, i)
  {
    RoutingKinds(hosts, links, routing, i);
    InBlock(hosts, links, routing, i, InterfaceGig);
    if i < |hosts| {
      InBlock(hosts, links, routing, i, IpAddress(hosts[i].gateway, hosts[i].mask));
    }
  }

  /** Router i opens serial port k exactly when it is one of the two ends of
      link k: the lower end, router k, or the upper end, router k + 1. */
  lemma RouterSerialPorts(hosts: seq<HostSubnet>, links: seq<SerialLink>, routing: Routing, i: int, k: int)
    requires |links| == |hosts| && 0 <= i <= |hosts|
    ensures InterfaceSerial(k) in RouterBlock(hosts, links, routing, i) <==> 0 <= k < |links| && (k == i || k + 1 == i)
  {
    RoutingKinds(hosts, links, routing, i);
    InBlock(hosts, links, routing, i, InterfaceSerial(k));
  }

  /** Router i sets a clock rate exactly when it has a next link, whose near
      end ip1 it takes; it takes the far end ip2 of its previous link. */
  lemma RouterLinkEnds(hosts: seq<HostSubnet>, links: seq<SerialLink>, routing: Routing, i: int)
    requires |links| == |hosts| && 0 <= i <= |hosts|
    ensures ClockRate(LinkRate) in RouterBlock(hosts, links, routing, i) <==> i < |links|
    ensures i < |links| ==> IpAddress(links[i].ip1, links[i].mask) in RouterBlock(hosts, links, routing, i)
    ensures 0 < i ==> IpAddress(links[i - 1].ip2, links[i - 1].mask) in RouterBlock(hosts, links, routing, i)
  {
    RoutingKinds(hosts, links, routing, i);
    InBlock(hosts, links, routing, i, ClockRate(LinkRate));
    if i < |links| {
      InBlock(hosts, links, routing, i, IpAddress(links[i].ip1, links[i].mask));
    }
    if 0 < i {
      InBlock(hosts, links, routing, i, IpAddress(links[i - 1].ip2, links[i - 1].mask));
    }
  }

  /** The lines selected by f, in order. */
  function Pick<T>(lines: seq<Line>, f: Line -> seq<T>): seq<T> {
    if |lines| == 0 then [] else f(lines[0]) + Pick(lines[1..], f)
  }

  lemma {:induction false} PickAppend<T>(a: seq<Line>, b: seq<Line>, f: Line -> seq<T>)
    ensures Pick(a + b, f) == Pick(a, f) + Pick(b, f)
  {
    if |a| > 0 {
      PickAppend(a[1..], b, f);
      assert (a + b)[0] == a[0];
      assert (a + b)[1..] == a[1..] + b;
    }
    else {
      assert a + b == b;
    }
  }

  lemma {:induction false} PickNone<T>(lines: seq<Line>, f: Line -> seq<T>)
    requires forall l :: l in lines ==> f(l) == []
    ensures Pick(lines, f) == []
  {
    if |lines| > 0 {
      PickNone(lines[1..], f);
    }
  }

  function TitleOf(l: Line): seq<int> {
    if l.RouterTitle? then [l.router] else []
  }

  function RipNetworkOf(l: Line): seq<Dotted> {
    if l.RipNetwork? then [l.network] else []
  }

  /** Picking from a router section is picking from its parts. */
  lemma PickBlock<T>(hosts: seq<HostSubnet>, links: seq<SerialLink>, routing: Routing, i: int, f: Line -> seq<T>)
    requires |links| == |hosts| && 0 <= i <= |hosts|
    ensures Pick(RouterBlock(hosts, links, routing, i), f)
         == Pick(Banner(i), f) + Pick(LanLines(hosts, i), f) + Pick(SerialLines(links, i), f)
            + Pick(RoutingLines(hosts, links, routing, i), f) + Pick([RuleEnd], f)
  {
    var b, l, s, r, e := Banner(i), LanLines(hosts, i), SerialLines(links, i), RoutingLines(hosts, links, routing, i), [RuleEnd];
    PickAppend(b + l + s + r, e, f);
    PickAppend(b + l + s, r, f);
    PickAppend(b + l, s, f);
    PickAppend(b, l, f);
  }

  /** Router i's section names router i and no other. */
  lemma BlockTitles(hosts: seq<HostSubnet>, links: seq<SerialLink>, routing: Routing, i: int)
    requires |links| == |hosts| && 0 <= i <= |hosts|
    ensures Pick(RouterBlock(hosts, links, routing, i), TitleOf) == [i]
  {
    PickBlock(hosts, links, routing, i, TitleOf);
    LanQuiet(hosts, i, TitleOf);
    SerialQuiet(links, i, TitleOf);
    RoutingUntitled(hosts, links, routing, i);
    EndQuiet(TitleOf);
    BannerTitle(i);
  }

  lemma BannerTitle(i: int)
    ensures Pick(Banner(i), TitleOf) == [i]
  {
    PickAppend([Rule, RouterTitle(i)], [Rule], TitleOf);
    PickAppend([Rule], [RouterTitle(i)], TitleOf);
    assert Banner(i) == [Rule, RouterTitle(i)] + [Rule];
    assert [Rule, RouterTitle(i)] == [Rule] + [RouterTitle(i)];
  }

  /** A picker that takes nothing from rules, interface, address and note
      lines: only titles, RIP networks and static routes can yield entries. */
  ghost predicate Quiet<T>(f: Line -> seq<T>) {
    forall l: Line :: !(l.RouterTitle? || l.RipNetwork? || l.IpRoute?) ==> f(l) == []
  }

  lemma BannerQuiet<T>(i: int, f: Line -> seq<T>)
    requires Quiet(f) && f(RouterTitle(i)) == []
    ensures Pick(Banner(i), f) == []
  {
    PickNone(Banner(i), f);
  }

  lemma LanQuiet<T>(hosts: seq<HostSubnet>, i: int, f: Line -> seq<T>)
    requires 0 <= i && Quiet(f)
    ensures Pick(LanLines(hosts, i), f) == []
  {
    PickNone(LanLines(hosts, i), f);
  }

  lemma SerialQuiet<T>(links: seq<SerialLink>, i: int, f: Line -> seq<T>)
    requires 0 <= i <= |links| && Quiet(f)
    ensures Pick(SerialLines(links, i), f) == []
  {
    var prev := if i > 0 then [InterfaceSerial(i - 1), IpAddress(links[i - 1].ip2, links[i - 1].mask), NoShutdown] else [];
    var next := if i < |links| then [InterfaceSerial(i), IpAddress(links[i].ip1, links[i].mask), ClockRate(LinkRate), NoShutdown] else [];
    PickNone(prev, f);
    PickNone(next, f);
    PickAppend(prev, next, f);
  }

  lemma EndQuiet<T>(f: Line -> seq<T>)
    requires Quiet(f)
    ensures Pick([RuleEnd], f) == []
  {
    PickNone([RuleEnd], f);
  }

  lemma RoutingUntitled(hosts: seq<HostSubnet>, links: seq<SerialLink>, routing: Routing, i: int)
    requires |links| == |hosts| && 0 <= i <= |hosts|
    ensures Pick(RoutingLines(hosts, links, routing, i), TitleOf) == []
  {
    RoutingKinds(hosts, links, routing, i);
    PickNone(RoutingLines(hosts, links, routing, i), TitleOf);
  }

  lemma {:induction false} BlocksTitles(hosts: seq<HostSubnet>, links: seq<SerialLink>, routing: Routing, i: int)
    requires |links| == |hosts| && 0 <= i <= |hosts| + 1
    ensures Pick(Blocks(hosts, links, routing, i), TitleOf) == Run(i, |hosts| + 1)
    decreases |hosts| + 1 - i
  {
    if i <= |hosts| {
      BlocksTitlesStep(hosts, links, routing, i);
      BlocksTitles(hosts, links, routing, i + 1);
    }
  }

  /** The titles from router i on are i followed by those from router i + 1 on. */
  lemma BlocksTitlesStep(hosts: seq<HostSubnet>, links: seq<SerialLink>, routing: Routing, i: int)
    requires |links| == |hosts| && 0 <= i <= |hosts|
    ensures Pick(Blocks(hosts, links, routing, i), TitleOf) == [i] + Pick(Blocks(hosts, links, routing, i + 1), TitleOf)
  {
    var here := RouterBlock(hosts, links, routing, i);
    var later := Blocks(hosts, links, routing, i + 1);
    assert Blocks(hosts, links, routing, i) == here + later;
    BlockTitles(hosts, links, routing, i);
    PickAppend(here, later, TitleOf);
  }

  /** The numbers i, i + 1, ..., n - 1 in order. */
  function Run(i: int, n: int): (r: seq<int>)
    ensures |r| == if i < n then n - i else 0
    ensures forall k :: 0 <= k < |r| ==> r[k] == i + k
    decreases n - i
  {
    if i < n then [i] + Run(i + 1, n) else []
  }

  /** The output has one banner per router, naming R0 up to Rn in order. */
  lemma GenerateTitles(hosts: seq<HostSubnet>, routing: Routing)
    ensures var t := Pick(Generate(hosts, routing), TitleOf);
      |t| == |hosts| + 1 && forall k :: 0 <= k < |t| ==> t[k] == k
  {
    var links := SerialLinks(|hosts|);
    BlocksTitles(hosts, links, routing, 0);
    PickAppend(Blocks(hosts, links, routing, 0), [Reminder], TitleOf);
    PickNone([Reminder], TitleOf);
  }

  /** In RIP mode router i announces exactly the networks it is attached to,
      in the order LAN, previous link, next link; in static mode it
      announces none. */
  lemma RipAnnounces(hosts: seq<HostSubnet>, links: seq<SerialLink>, routing: Routing, i: int)
    requires |links| == |hosts| && 0 <= i <= |hosts|
    ensures Pick(RouterBlock(hosts, links, routing, i), RipNetworkOf)
         == if routing == Rip then Connected(hosts, links, i) else []
  {
    PickBlock(hosts, links, routing, i, RipNetworkOf);
    BannerQuiet(i, RipNetworkOf);
    LanQuiet(hosts, i, RipNetworkOf);
    SerialQuiet(links, i, RipNetworkOf);
    EndQuiet(RipNetworkOf);
    RoutingNetworks(hosts, links, routing, i);
  }

  lemma RoutingNetworks(hosts: seq<HostSubnet>, links: seq<SerialLink>, routing: Routing, i: int)
    requires |links| == |hosts| && 0 <= i <= |hosts|
    ensures Pick(RoutingLines(hosts, links, routing, i), RipNetworkOf)
         == if routing == Rip then Connected(hosts, links, i) else []
  {
    if routing == Rip {
      var c := Connected(hosts, links, i);
      var nets := seq(|c|, k requires 0 <= k < |c| => RipNetwork(c[k]));
      RipPick(c);
      PickNone([RouterRip, Version2], RipNetworkOf);
      PickNone([NoAutoSummary], RipNetworkOf);
      PickAppend([RouterRip, Version2], nets, RipNetworkOf);
      PickAppend([RouterRip, Version2] + nets, [NoAutoSummary], RipNetworkOf);
    } else {
      StaticRoutesExact(hosts, links, i);
      PickNone(RoutingLines(hosts, links, routing, i), RipNetworkOf);
    }
  }

  lemma {:induction false} RipPick(c: seq<Dotted>)
    ensures Pick(seq(|c|, k requires 0 <= k < |c| => RipNetwork(c[k])), RipNetworkOf) == c
  {
    if |c| > 0 {
      RipPick(c[1..]);
      assert seq(|c|, k requires 0 <= k < |c| => RipNetwork(c[k]))[1..]
          == seq(|c[1..]|, k requires 0 <= k < |c[1..]| => RipNetwork(c[1..][k]));
    }
  }
}
