/** The arithmetic of the two result tables (`generarTablas`): the jump column
    ("salto en el octeto") computed from a row's mask, and the range of valid
    host addresses of a host block. The HTML markup itself is not modelled. */
module Tables {
  import opened Optional
  import opened Bits
  import opened Address
  import opened EqualDivider
  import opened HostDivider

  /** The jump column: the octet the prefix ends in (1 to 4) and the block
      size counted in units of that octet. */
  datatype Jump = Jump(step: int, octet: int)

  /** The octet a prefix ends in: the least k in 1..4 with prefix <= 8k, and 4
      when there is none. */
  function Band(prefix: int): (k: int)
    ensures 1 <= k <= 4
    ensures k < 4 ==> prefix <= 8 * k
    ensures k > 1 ==> 8 * (k - 1) < prefix
  {
    if prefix <= 8 then 1 else if prefix <= 16 then 2 else if prefix <= 24 then 3 else 4
  }

  /** The jump of a row: 256 minus the mask octet of the row's band. */
  function JumpOf(prefix: int, mask: Dotted): Jump
  {
    var k := Band(prefix);
    Jump(256 - Octet(mask, k - 1), k)
  }

  /** For the mask of a prefix p in 0..32, the jump is 2^(8k - p) in octet k,
      so the jump scaled to the octet's weight is the block size 2^(32 - p). */
  lemma JumpOfMask(p: int)
    requires 0 <= p <= 32
    ensures var j := JumpOf(p, PrefixToMask(p));
      && 8 * (j.octet - 1) <= p <= 8 * j.octet
      && j.step == Pow2(8 * j.octet - p)
      && j.step * Pow2(32 - 8 * j.octet) == Pow2(32 - p)
  {
    var k := Band(p);
    MaskOctetAt(p, k - 1);
    MaskOctetValue(p - 8 * (k - 1));
    assert JumpOf(p, PrefixToMask(p)).step == Pow2(8 * k - p);
    Pow2Split(8 * k - p, 32 - 8 * k, 32 - p);
  }

  /** The octet a prefix ends in is the `octeto` the equal-size divider reports,
      ceil(p / 8), for every prefix of at least 1; for /0 they differ. */
  lemma BandIsCeil(p: int)
    ensures 1 <= p <= 32 ==> Band(p) == CeilDiv8(p)
    ensures p == 0 ==> Band(p) == 1 && CeilDiv8(p) == 0
  {
  }

  /** Octet k of the mask of p holds the prefix bits that remain after the
      first 8k. */
  lemma MaskOctetAt(p: int, k: nat)
    requires k < 4 && 8 * k <= p
    ensures Octet(PrefixToMask(p), k) == MaskOctet(p - 8 * k)
  {
  }

  /** The valid-address cell: the first and last usable address, or "-". */
  datatype Range = Range(first: Dotted, last: Dotted)

  /** The first usable address of a row: `intToIp(ipToInt(red) + 2)`. */
  function FirstValid(network: Dotted): Dotted {
    IntToIp(IpToInt(network) + 2)
  }

  /** The last usable address of a row: `intToIp(ipToInt(broadcast) - 1)`. */
  function LastValid(broadcast: Dotted): Dotted {
    IntToIp(IpToInt(broadcast) - 1)
  }

  /** Lines 156-158 as written: the two ends are read back through `ipToInt`
      and compared as signed 32-bit values. */
  function ValidRangeAsWritten(network: Dotted, broadcast: Dotted): Option<Range> {
    if IpToInt(FirstValid(network)) <= IpToInt(LastValid(broadcast))
    then Some(Range(FirstValid(network), LastValid(broadcast)))
    else None
  }

  /** The valid-address cell as intended: the same ends, shown exactly when a
      block of `size` addresses has room between network + 2 and
      broadcast - 1. */
  function ValidRange(network: Dotted, broadcast: Dotted, size: int): Option<Range> {
    if 2 <= size - 2 then Some(Range(FirstValid(network), LastValid(broadcast))) else None
  }

  /** The first usable address is two along from the network, and reads back
      as the signed value of that integer. */
  lemma FirstValidOf(network: Dotted, net: int)
    requires network == IntToIp(net)
    ensures FirstValid(network) == IntToIp(net + 2)
    ensures IpToInt(FirstValid(network)) == ToInt32(net + 2)
  {
    ReadBack(network, net, 2);
    IntRoundTrip(net + 2);
  }

  /** The last usable address is one below the broadcast. */
  lemma LastValidOf(broadcast: Dotted, last: int)
    requires broadcast == IntToIp(last)
    ensures LastValid(broadcast) == IntToIp(last - 1)
    ensures IpToInt(LastValid(broadcast)) == ToInt32(last - 1)
    ensures Value(LastValid(broadcast)) == (Value(broadcast) - 1) % Two32
  {
    ReadBack(broadcast, last, -1);
    ReadBackValue(broadcast, last, -1);
    IntRoundTrip(last - 1);
  }

  /** For a block of `size` addresses at raw address `net`, the cell is shown
      exactly when size >= 4, and then runs from net + 2 to net + size - 2,
      the last address being one below the broadcast. */
  lemma ValidRangeOfSpan(network: Dotted, broadcast: Dotted, size: int, net: int)
    requires network == IntToIp(net) && broadcast == IntToIp(net + size - 1)
    ensures var r := ValidRange(network, broadcast, size);
      && (r.Some? <==> size >= 4)
      && (r.Some? ==>
            && r.value.first == IntToIp(net + 2)
            && r.value.last == IntToIp(net + size - 2)
            && Value(r.value.last) == (Value(broadcast) - 1) % Two32)
  {
    FirstValidOf(network, net);
    LastValidOf(broadcast, net + size - 1);
  }

  /** For a block of the host divider the cell is shown exactly when at least
      one host was asked for, and it starts at the PC address. */
  lemma ValidRangeOfBlock(net: int, hosts: int)
    ensures var s := HostBlock(net, hosts);
      var r := ValidRange(s.network, s.broadcast, s.size);
      && (r.Some? <==> hosts >= 1)
      && (r.Some? ==> r.value.first == s.pcIp)
  {
    var s := HostBlock(net, hosts);
    HostBlockAddresses(s, net, hosts);
    ValidRangeOfSpan(s.network, s.broadcast, s.size, net);
    HostBlockSize(net, hosts);
    BlockSizeFour(hosts);
  }

  /** A block has room for a usable address exactly when one host was asked for. */
  lemma BlockSizeFour(hosts: int)
    ensures BlockSize(hosts) >= 4 <==> hosts >= 1
  {
    Pow2Table();
    BitsForLeast(hosts + 2, 1);
    if hosts >= 1 {
      Pow2Monotone(2, BitsFor(hosts + 2));
    } else {
      Pow2Monotone(BitsFor(hosts + 2), 1);
    }
  }

  /** The cell as written, for a block of `size` addresses at raw address
      `net`: the signed readings of net + 2 and net + size - 2 are compared. */
  lemma ValidRangeAsWrittenOfSpan(network: Dotted, broadcast: Dotted, size: int, net: int)
    requires network == IntToIp(net) && broadcast == IntToIp(net + size - 1)
    ensures ValidRangeAsWritten(network, broadcast)
         == if ToInt32(net + 2) <= ToInt32(net + size - 2)
            then Some(Range(IntToIp(net + 2), IntToIp(net + size - 2)))
            else None
  {
    FirstValidOf(network, net);
    LastValidOf(broadcast, net + size - 1);
  }

  /** When neither end of the range crosses the signed boundary 2^31, the
      signed comparison as written gives the intended cell. */
  lemma ValidRangeAgrees(network: Dotted, broadcast: Dotted, size: int, net: int)
    requires network == IntToIp(net) && broadcast == IntToIp(net + size - 1)
    requires -Two31 <= ToInt32(net) + 2 < Two31
    requires -Two31 <= ToInt32(net) + size - 2 < Two31
    ensures ValidRangeAsWritten(network, broadcast) == ValidRange(network, broadcast, size)
  {
    ValidRangeAsWrittenOfSpan(network, broadcast, size, net);
    ValidRangeOfSpan(network, broadcast, size, net);
    SignedEnds(net, ToInt32(net), size);
  }

  lemma SignedEnds(net: int, t: int, size: int)
    requires t == ToInt32(net)
    requires -Two31 <= t + 2 < Two31
    requires -Two31 <= t + size - 2 < Two31
    ensures ToInt32(net + 2) == t + 2
    ensures ToInt32(net + size - 2) == t + size - 2
  {
    ToInt32Unique(net + 2, t + 2);
    ToInt32Unique(net + size - 2, t + size - 2);
  }

  /** A block of 256 addresses at 127.255.255.4 straddles 2^31: the signed
      comparison as written hides its valid range, which is not empty. */
  lemma ValidRangeAsWrittenGap()
    ensures ValidRangeAsWritten(IntToIp(0x7FFF_FF04), IntToIp(0x8000_0003)).None?
    ensures ValidRange(IntToIp(0x7FFF_FF04), IntToIp(0x8000_0003), 256).Some?
  {
    FirstValidOf(IntToIp(0x7FFF_FF04), 0x7FFF_FF04);
    LastValidOf(IntToIp(0x8000_0003), 0x8000_0003);
    assert ToInt32(0x7FFF_FF06) == 0x7FFF_FF06;
    assert ToInt32(0x8000_0002) == 0x8000_0002 - Two32;
  }

  /** That block is what the host divider builds for 250 hosts at that address. */
  lemma GapBlock()
    ensures var s := HostBlock(0x7FFF_FF04, 250);
      s.network == IntToIp(0x7FFF_FF04) && s.broadcast == IntToIp(0x8000_0003) && s.size == 256
  {
    var s := HostBlock(0x7FFF_FF04, 250);
    Pow2Table();
    BitsForLeast(252, 8);
    BitsForLeast(252, 7);
    HostBlockAddresses(s, 0x7FFF_FF04, 250);
  }

  /** A block of 2 addresses at 127.255.255.254 has no usable address, yet
      its first "valid" address 128.0.0.0 reads as -2^31, below the last one,
      so the signed comparison as written shows a reversed range. */
  lemma ValidRangeAsWrittenPhantom()
    ensures ValidRangeAsWritten(IntToIp(0x7FFF_FFFE), IntToIp(0x7FFF_FFFF)).Some?
    ensures ValidRange(IntToIp(0x7FFF_FFFE), IntToIp(0x7FFF_FFFF), 2).None?
  {
    FirstValidOf(IntToIp(0x7FFF_FFFE), 0x7FFF_FFFE);
    LastValidOf(IntToIp(0x7FFF_FFFF), 0x7FFF_FFFF);
    assert ToInt32(0x8000_0000) == 0x8000_0000 - Two32;
    assert ToInt32(0x7FFF_FFFE) == 0x7FFF_FFFE;
  }

  /** That block is what the host divider builds for 0 hosts at that address. */
  lemma PhantomBlock()
    ensures var s := HostBlock(0x7FFF_FFFE, 0);
      s.network == IntToIp(0x7FFF_FFFE) && s.broadcast == IntToIp(0x7FFF_FFFF) && s.size == 2
  {
    var s := HostBlock(0x7FFF_FFFE, 0);
    Pow2Table();
    BitsForLeast(2, 1);
    BitsForLeast(2, 0);
    HostBlockAddresses(s, 0x7FFF_FFFE, 0);
  }

  /** One row of the subnet table. */
  datatype SubnetRow = SubnetRow(number: int, network: Dotted, prefix: int, mask: Dotted, broadcast: Dotted, jump: Jump)

  /** One row of the host table. `range` is the valid-address cell the page
      shows, with its signed emptiness test; `intended` is the cell with the
      emptiness test the table means, kept beside it for comparison. */
  datatype HostRow = HostRow(number: int, network: Dotted, prefix: int, mask: Dotted, hosts: int, jump: Jump,
                             range: Option<Range>, intended: Option<Range>, gateway: Dotted, broadcast: Dotted)

  function SubnetRowOf(s: Subnet, i: int): SubnetRow {
    SubnetRow(i + 1, s.network, s.prefix, s.mask, IntToIp(s.broadcast), JumpOf(s.prefix, s.mask))
  }

  function HostRowOf(s: HostSubnet, i: int): HostRow {
    HostRow(i + 1, s.network, s.prefix, s.mask, s.hosts, JumpOf(s.prefix, s.mask),
            ValidRangeAsWritten(s.network, s.broadcast), ValidRange(s.network, s.broadcast, s.size),
            s.gateway, s.broadcast)
  }

  /** The subnet table: one row per subnet, numbered from 1. */
  function SubnetRows(subnets: seq<Subnet>): (r: seq<SubnetRow>)
    ensures |r| == |subnets|
    ensures forall i :: 0 <= i < |r| ==> r[i] == SubnetRowOf(subnets[i], i)
  {
    seq(|subnets|, i requires 0 <= i < |subnets| => SubnetRowOf(subnets[i], i))
  }

  /** The host table: one row per host block, numbered from 1. */
  function HostRows(blocks: seq<HostSubnet>): (r: seq<HostRow>)
    ensures |r| == |blocks|
    ensures forall i :: 0 <= i < |r| ==> r[i] == HostRowOf(blocks[i], i)
  {
    seq(|blocks|, i requires 0 <= i < |blocks| => HostRowOf(blocks[i], i))
  }

  /** A row whose mask is that of its prefix p in 0..32 shows a jump that,
      scaled to its octet, is the block size 2^(32 - p). */
  lemma RowJump(prefix: int, mask: Dotted)
    requires 0 <= prefix <= 32 && mask == PrefixToMask(prefix)
    ensures JumpOf(prefix, mask).step * Pow2(32 - 8 * JumpOf(prefix, mask).octet) == Pow2(32 - prefix)
  {
    JumpOfMask(prefix);
  }

  /** In the subnet table of a division from a prefix of at least 0, every
      row's jump, scaled to its octet, is the division's block size `salto`. */
  lemma SubnetRowsJump(base: Dotted, prefix: int, count: int, i: int)
    requires 0 <= prefix
    requires Divide(base, prefix, count).Some?
    requires 0 <= i < |Divide(base, prefix, count).value.subnets|
    ensures var d := Divide(base, prefix, count).value;
      var j := SubnetRows(d.subnets)[i].jump;
      j.step * Pow2(32 - 8 * j.octet) == d.step
  {
    var d := Divide(base, prefix, count).value;
    var s := d.subnets[i];
    DivideRows(base, prefix, count, i);
    RowJump(s.prefix, s.mask);
  }

  /** The broadcast column of the subnet table is the last address of the row's block. */
  lemma SubnetRowsBroadcast(base: Dotted, prefix: int, count: int, i: int)
    requires Divide(base, prefix, count).Some?
    requires 0 <= i < |Divide(base, prefix, count).value.subnets|
    ensures var d := Divide(base, prefix, count).value;
      Value(SubnetRows(d.subnets)[i].broadcast) == (Value(d.subnets[i].network) + d.step - 1) % Two32
  {
    var d := Divide(base, prefix, count).value;
    DivideRows(base, prefix, count, i);
    RowBroadcast(d.subnets[i], d.step, i);
  }

  /** A row whose network is `step - 1` addresses below its broadcast shows
      that broadcast as the network's reading plus `step - 1`. */
  lemma RowBroadcast(s: Subnet, step: int, i: int)
    requires s.network == IntToIp(s.broadcast - step + 1)
    ensures Value(SubnetRowOf(s, i).broadcast) == (Value(s.network) + step - 1) % Two32
  {
    ShiftedValue(s.broadcast - step + 1, step - 1);
  }

  /** The host table's valid-address cell for the block of `hosts` hosts at
      raw address `net`: the page shows the range exactly when the signed
      readings of its two ends are in order, while the intended cell is
      shown exactly when at least one host was asked for. */
  lemma HostRowCells(net: int, hosts: int, i: int)
    ensures var row := HostRowOf(HostBlock(net, hosts), i);
      && (row.range.Some? <==> ToInt32(net + 2) <= ToInt32(net + BlockSize(hosts) - 2))
      && (row.intended.Some? <==> hosts >= 1)
  {
    var s := HostBlock(net, hosts);
    HostBlockAddresses(s, net, hosts);
    HostBlockSize(net, hosts);
    ValidRangeAsWrittenOfSpan(s.network, s.broadcast, s.size, net);
    ValidRangeOfBlock(net, hosts);
  }

  /** When neither end of a host block's range crosses the signed boundary
      2^31, the cell the page shows is the intended one. */
  lemma HostRowAgrees(net: int, hosts: int, i: int)
    requires -Two31 <= ToInt32(net) + 2 < Two31
    requires -Two31 <= ToInt32(net) + BlockSize(hosts) - 2 < Two31
    ensures var row := HostRowOf(HostBlock(net, hosts), i);
      row.range == row.intended
  {
    var s := HostBlock(net, hosts);
    HostBlockAddresses(s, net, hosts);
    HostBlockSize(net, hosts);
    ValidRangeAgrees(s.network, s.broadcast, s.size, net);
  }
}
