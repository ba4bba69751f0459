/** The pure part of `calcular`: the equal-size division of the base network,
    the host blocks placed right after its last subnet, the two tables and
    the router commands, with the error exits the page reports. */
module Planner {
  import opened Optional
  import opened Bits
  import opened Address
  import opened EqualDivider
  import opened HostDivider
  import opened Tables
  import opened Commands

  /** Why no plan is produced. */
  datatype PlanError =
    | Incomplete   // the host list is empty
    | NoDivision   // the equal-size divider refused the request
    | NoSubnets    // the division has no rows, so there is no last broadcast to start from

  /** Everything the page shows for one request. */
  datatype PlanResult = PlanResult(
    division: Division,
    start: int,
    blocks: seq<HostSubnet>,
    subnetRows: seq<SubnetRow>,
    hostRows: seq<HostRow>,
    commands: seq<Line>)

  /** `calcular` for an already parsed request: base network and prefix,
      number of equal subnets, host counts and routing choice. */
  function Plan(base: Dotted, prefix: int, count: int, hosts: seq<int>, routing: Routing): Result<PlanResult, PlanError> {
    if |hosts| == 0 then Err(Incomplete)
    else
      match Divide(base, prefix, count)
      case None => Err(NoDivision)
      case Some(d) =>
        if |d.subnets| == 0 then Err(NoSubnets) else Ok(Assemble(d, hosts, routing))
  }

  /** The rest of `calcular` once the division has rows: the host blocks
      start one past the last broadcast. */
  function Assemble(d: Division, hosts: seq<int>, routing: Routing): PlanResult
    requires |d.subnets| > 0
  {
    var start := d.subnets[|d.subnets| - 1].broadcast + 1;
    var blocks := DivideHosts(start, hosts);
    PlanResult(d, start, blocks, SubnetRows(d.subnets), HostRows(blocks), Generate(blocks, routing))
  }

  /** A request fails for an empty host list, then when the divider refuses
      the prefix, then when it was asked for no subnets; otherwise it
      succeeds. */
  lemma PlanOutcome(base: Dotted, prefix: int, count: int, hosts: seq<int>, routing: Routing)
    ensures var r := Plan(base, prefix, count, hosts, routing);
      && (r == Err(Incomplete) <==> |hosts| == 0)
      && (r == Err(NoDivision) <==> |hosts| > 0 && prefix + BitsFor(count) > MaxPrefix)
      && (r == Err(NoSubnets) <==> |hosts| > 0 && prefix + BitsFor(count) <= MaxPrefix && count <= 0)
      && (r.Ok? <==> |hosts| > 0 && prefix + BitsFor(count) <= MaxPrefix && count > 0)
  {
  }

  /** The host blocks start at the first address after the equal-size
      subnets: `count` steps past the base, one past the last broadcast. */
  lemma PlanStart(base: Dotted, prefix: int, count: int, hosts: seq<int>, routing: Routing)
    requires |hosts| > 0 && count > 0 && prefix + BitsFor(count) <= MaxPrefix
    ensures var p := Plan(base, prefix, count, hosts, routing).value;
      && |p.division.subnets| == count
      && p.start == IpToInt(base) + count * p.division.step
      && p.start == p.division.subnets[count - 1].broadcast + 1
  {
    PlanValue(base, prefix, count, hosts, routing);
    var d := Divide(base, prefix, count).value;
    var last := d.subnets[count - 1];
    assert last == SubnetAt(IpToInt(base), prefix + BitsFor(count), d.step, count - 1);
    LastBroadcast(IpToInt(base), prefix + BitsFor(count), d.step, count);
  }

  /** The first host block's network is the start address, wrapped to 32 bits. */
  lemma PlanFirstBlock(base: Dotted, prefix: int, count: int, hosts: seq<int>, routing: Routing)
    requires |hosts| > 0 && count > 0 && prefix + BitsFor(count) <= MaxPrefix
    ensures var p := Plan(base, prefix, count, hosts, routing).value;
      p.blocks[0].network == IntToIp(p.start)
  {
    PlanValue(base, prefix, count, hosts, routing);
    var p := Plan(base, prefix, count, hosts, routing).value;
    DivideHostsFirst(p.start, hosts);
  }

  lemma LastBroadcast(baseInt: int, prefix: int, step: nat, count: int)
    ensures SubnetAt(baseInt, prefix, step, count - 1).broadcast + 1 == baseInt + count * step
  {
    assert (count - 1) * step + step == count * step;
  }

  /** A request with hosts, at least one subnet and room for the subnet bits
      succeeds, and its plan is the assembly of the division it asked for. */
  lemma PlanValue(base: Dotted, prefix: int, count: int, hosts: seq<int>, routing: Routing)
    requires |hosts| > 0 && count > 0 && prefix + BitsFor(count) <= MaxPrefix
    ensures Plan(base, prefix, count, hosts, routing).Ok?
    ensures Divide(base, prefix, count).Some?
    ensures |Divide(base, prefix, count).value.subnets| == count
    ensures Plan(base, prefix, count, hosts, routing).value == Assemble(Divide(base, prefix, count).value, hosts, routing)
  {
  }

  /** The host blocks, table rows and commands are those of the blocks laid
      out from the start address: one block and one row per host count, and
      one router section per block plus one. */
  lemma PlanShape(base: Dotted, prefix: int, count: int, hosts: seq<int>, routing: Routing)
    requires |hosts| > 0 && count > 0 && prefix + BitsFor(count) <= MaxPrefix
    ensures var p := Plan(base, prefix, count, hosts, routing).value;
      && |p.blocks| == |hosts|
      && |p.subnetRows| == count
      && |p.hostRows| == |hosts|
      && (forall i :: 0 <= i < |hosts| ==> p.blocks[i].hosts == hosts[i] && p.hostRows[i].hosts == hosts[i])
      && p.commands == Generate(p.blocks, routing)
  {
    var p := Plan(base, prefix, count, hosts, routing).value;
    forall i | 0 <= i < |hosts|
      ensures p.blocks[i].hosts == hosts[i]
    {
      DivideHostsAt(p.start, hosts, i);
      HostBlockSize(Starts(p.start, hosts)[i], hosts[i]);
    }
  }

  /** The request 127.255.255.0/30, one subnet, one LAN of 250 hosts: the
      only host block is 127.255.255.4 to 128.0.0.3, and its host-table row
      shows "-" although the block has usable addresses. */
  lemma PlanReachesGap()
    ensures var r := Plan(Dotted(127, 255, 255, 0), 30, 1, [250], Static);
      && r.Ok?
      && r.value.blocks[0] == HostBlock(0x7FFF_FF04, 250)
      && r.value.hostRows[0].range.None?
      && r.value.hostRows[0].intended.Some?
  {
    var base := Dotted(127, 255, 255, 0);
    assert WellFormed(base);
    ToInt32Unique(0x7FFF_FF00, 0x7FFF_FF00);
    assert IpToInt(base) == 0x7FFF_FF00;
    Pow2Table();
    BitsForLeast(1, 0);
    assert BitsFor(1) == 0;
    var d := Divide(base, 30, 1).value;
    assert d.step == 4;
    assert d.subnets[0].broadcast == 0x7FFF_FF03;
    var r := Plan(base, 30, 1, [250], Static);
    assert r.value.start == 0x7FFF_FF04;
    DivideHostsAt(0x7FFF_FF04, [250], 0);
    var b := r.value.blocks[0];
    assert b == HostBlock(0x7FFF_FF04, 250);
    GapBlock();
    ValidRangeAsWrittenGap();
    assert r.value.hostRows[0] == HostRowOf(b, 0);
  }

  /** The request 127.255.255.250/30, one subnet, one LAN of 0 hosts: the
      only host block is 127.255.255.254 to 127.255.255.255, and its
      host-table row shows a reversed range although the block has no usable
      address. */
  lemma PlanReachesPhantom()
    ensures var r := Plan(Dotted(127, 255, 255, 250), 30, 1, [0], Static);
      && r.Ok?
      && r.value.blocks[0] == HostBlock(0x7FFF_FFFE, 0)
      && r.value.hostRows[0].range.Some?
      && r.value.hostRows[0].intended.None?
  {
    var base := Dotted(127, 255, 255, 250);
    assert WellFormed(base);
    ToInt32Unique(0x7FFF_FFFA, 0x7FFF_FFFA);
    assert IpToInt(base) == 0x7FFF_FFFA;
    Pow2Table();
    BitsForLeast(1, 0);
    assert BitsFor(1) == 0;
    var d := Divide(base, 30, 1).value;
    assert d.step == 4;
    assert d.subnets[0].broadcast == 0x7FFF_FFFD;
    var r := Plan(base, 30, 1, [0], Static);
    assert r.value.start == 0x7FFF_FFFE;
    DivideHostsAt(0x7FFF_FFFE, [0], 0);
    var b := r.value.blocks[0];
    assert b == HostBlock(0x7FFF_FFFE, 0);
    PhantomBlock();
    ValidRangeAsWrittenPhantom();
    assert r.value.hostRows[0] == HostRowOf(b, 0);
  }
}
