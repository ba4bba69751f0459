/** The VLSM host divider (`calcularSubredesParaHosts`): for each requested
    host count, in the caller's order, the smallest power-of-two block holding
    the hosts plus network and broadcast, placed back to back from a start
    address. Blocks are not aligned to their own size. */
module HostDivider {
  import opened Bits
  import opened Address

  /** One row of the result; every address is kept in dotted form. */
  datatype HostSubnet = HostSubnet(
    network: Dotted,
    prefix: int,
    mask: Dotted,
    broadcast: Dotted,
    gateway: Dotted,
    pcIp: Dotted,
    size: nat,
    hosts: int)

  /** Addresses a block for `hosts` hosts occupies: the least power of two
      that is at least hosts + 2. */
  function BlockSize(hosts: int): nat {
    Pow2(BitsFor(hosts + 2))
  }

  /** One turn of the loop: the block for `hosts` placed at raw address `net`. */
  function HostBlock(net: int, hosts: int): HostSubnet {
    var bits := BitsFor(hosts + 2);
    var size := Pow2(bits);
    var prefix := 32 - bits;
    HostSubnet(IntToIp(net), prefix, PrefixToMask(prefix), IntToIp(net + size - 1),
               IntToIp(net + 1), IntToIp(net + 2), size, hosts)
  }

  /** A block is the least power of two that fits the hosts plus two, and its
      prefix and mask match its size. */
  lemma HostBlockSize(net: int, hosts: int)
    ensures var s := HostBlock(net, hosts);
      && s.hosts == hosts
      && s.size == BlockSize(hosts)
      && hosts + 2 <= s.size
      && (forall k: nat :: hosts + 2 <= Pow2(k) ==> s.size <= Pow2(k))
      && s.prefix <= 32
      && s.size == Pow2(32 - s.prefix)
      && s.mask == PrefixToMask(s.prefix)
  {
    BlockSizeLeast(hosts);
  }

  /** No smaller power of two holds the hosts plus two. */
  lemma BlockSizeLeast(hosts: int)
    ensures hosts + 2 <= BlockSize(hosts)
    ensures forall k: nat :: hosts + 2 <= Pow2(k) ==> BlockSize(hosts) <= Pow2(k)
  {
    forall k: nat | hosts + 2 <= Pow2(k)
      ensures BlockSize(hosts) <= Pow2(k)
    {
      BitsForLeast(hosts + 2, k);
      Pow2Monotone(BitsFor(hosts + 2), k);
    }
  }

  /** A block placed at raw address `net` has its network there and its
      gateway, first host and broadcast at offsets 1, 2 and size - 1 from it,
      all wrapped to 32 bits. */
  lemma HostBlockAddresses(x: HostSubnet, net: int, hosts: int)
    requires x == HostBlock(net, hosts)
    ensures x.network == IntToIp(net)
    ensures x.gateway == IntToIp(net + 1)
    ensures x.pcIp == IntToIp(net + 2)
    ensures x.broadcast == IntToIp(net + x.size - 1)
    ensures Value(x.network) == net % Two32
    ensures Value(x.gateway) == (net + 1) % Two32
    ensures Value(x.pcIp) == (net + 2) % Two32
    ensures Value(x.broadcast) == (net + x.size - 1) % Two32
  {
  }

  /** Addresses taken by the blocks for hosts[lo..hi], in order. */
  function Span(hosts: seq<int>, lo: int, hi: int): nat
    requires 0 <= lo && hi <= |hosts|
    decreases hi - lo
  {
    if hi <= lo then 0 else Span(hosts, lo, hi - 1) + BlockSize(hosts[hi - 1])
  }

  /** Splitting off the first block of a span. */
  lemma {:induction false} SpanCons(hosts: seq<int>, lo: int, hi: int)
    requires 0 <= lo < hi <= |hosts|
    ensures Span(hosts, lo, hi) == BlockSize(hosts[lo]) + Span(hosts, lo + 1, hi)
    decreases hi - lo
  {
    if lo + 1 < hi {
      SpanCons(hosts, lo, hi - 1);
    }
  }

  lemma SpanConsAll(hosts: seq<int>, lo: int)
    requires 0 <= lo < |hosts|
    ensures forall hi :: lo < hi <= |hosts| ==>
      Span(hosts, lo, hi) == BlockSize(hosts[lo]) + Span(hosts, lo + 1, hi)
  {
    forall hi | lo < hi <= |hosts|
      ensures Span(hosts, lo, hi) == BlockSize(hosts[lo]) + Span(hosts, lo + 1, hi)
    {
      SpanCons(hosts, lo, hi);
    }
  }

  /** Spans over adjacent ranges add up. */
  lemma {:induction false} SpanSplit(hosts: seq<int>, lo: int, mid: int, hi: int)
    requires 0 <= lo <= mid <= hi <= |hosts|
    ensures Span(hosts, lo, hi) == Span(hosts, lo, mid) + Span(hosts, mid, hi)
    decreases hi - mid
  {
    if mid < hi {
      SpanSplit(hosts, lo, mid, hi - 1);
    }
  }

  /** The running address `current` of the loop: the raw network of each
      block from position `lo` on, each one the previous plus the previous
      block's size. */
  function Placement(current: int, hosts: seq<int>, lo: nat): (r: seq<int>)
    requires lo <= |hosts|
    ensures |r| == |hosts| - lo
    ensures forall j :: 0 <= j < |r| ==> r[j] == current + Span(hosts, lo, lo + j)
    decreases |hosts| - lo
  {
    if lo == |hosts| then []
    else
      SpanConsAll(hosts, lo);
      [current] + Placement(current + BlockSize(hosts[lo]), hosts, lo + 1)
  }

  /** The raw network address of every block, in input order. */
  function Starts(start: int, hosts: seq<int>): (r: seq<int>)
    ensures |r| == |hosts|
    ensures forall i :: 0 <= i < |r| ==> r[i] == start + Span(hosts, 0, i)
  {
    Placement(start, hosts, 0)
  }

  /** The loop of `calcularSubredesParaHosts` from position `lo` on, with
      `current` the running address and `block` the row built at each turn. */
  function Sweep<T>(block: (int, int) -> T, current: int, hosts: seq<int>, lo: nat): (r: seq<T>)
    requires lo <= |hosts|
    ensures |r| == |hosts| - lo
    decreases |hosts| - lo
  {
    if lo == |hosts| then []
    else [block(current, hosts[lo])] + Sweep(block, current + BlockSize(hosts[lo]), hosts, lo + 1)
  }

  /** `calcularSubredesParaHosts(start, hosts)`: one block per host count, in
      input order, each starting after the blocks of all earlier counts. */
  function DivideHosts(start: int, hosts: seq<int>): (r: seq<HostSubnet>)
    ensures |r| == |hosts|
  {
    Sweep(HostBlock, start, hosts, 0)
  }

  /** Entry j of the loop is the row built at the address the loop has
      reached by then. */
  lemma {:induction false} SweepAt<T>(block: (int, int) -> T, current: int, hosts: seq<int>, lo: nat, j: int)
    requires lo <= |hosts| && 0 <= j < |hosts| - lo
    ensures Sweep(block, current, hosts, lo)[j] == block(Placement(current, hosts, lo)[j], hosts[lo + j])
    decreases j
  {
    if j > 0 {
      SweepAt(block, current + BlockSize(hosts[lo]), hosts, lo + 1, j - 1);
      assert hosts[lo + 1 + (j - 1)] == hosts[lo + j];
    }
  }

  /** Block i is the block for hosts[i] placed after all earlier blocks. */
  lemma DivideHostsAt(start: int, hosts: seq<int>, i: int)
    requires 0 <= i < |hosts|
    ensures DivideHosts(start, hosts)[i] == HostBlock(Starts(start, hosts)[i], hosts[i])
  {
    SweepAt(HostBlock, start, hosts, 0, i);
    assert hosts[0 + i] == hosts[i];
  }

  /** The first block starts at the start address. */
  lemma DivideHostsFirst(start: int, hosts: seq<int>)
    requires |hosts| > 0
    ensures DivideHosts(start, hosts)[0].network == IntToIp(start)
  {
    var r := DivideHosts(start, hosts);
    DivideHostsAt(start, hosts, 0);
    HostBlockAddresses(r[0], start, hosts[0]);
  }

  /** Block i read back as numbers: its network is the running address
      wrapped to 32 bits, its broadcast the last address of its block. */
  lemma BlockAt(start: int, hosts: seq<int>, i: int)
    requires 0 <= i < |hosts|
    ensures var x := DivideHosts(start, hosts)[i];
      var a := Starts(start, hosts)[i];
      && Value(x.network) == a % Two32
      && Value(x.broadcast) == (a + x.size - 1) % Two32
      && x.size == BlockSize(hosts[i])
  {
    var r := DivideHosts(start, hosts);
    var s := Starts(start, hosts);
    DivideHostsAt(start, hosts, i);
    HostBlockSize(s[i], hosts[i]);
    HostBlockAddresses(r[i], s[i], hosts[i]);
  }

  /** The running address advances by one block size per position. */
  lemma StartsNext(start: int, hosts: seq<int>, i: int)
    requires 0 <= i && i + 1 < |hosts|
    ensures Starts(start, hosts)[i + 1] == Starts(start, hosts)[i] + BlockSize(hosts[i])
  {
  }

  /** Each later block starts where the previous one ends: at the previous
      network plus the previous size, i.e. one past the previous broadcast
      (all modulo 2^32). */
  lemma DivideHostsContiguous(start: int, hosts: seq<int>, i: int)
    requires 0 <= i && i + 1 < |hosts|
    ensures var r := DivideHosts(start, hosts);
      && Value(r[i + 1].network) == (Value(r[i].network) + r[i].size) % Two32
      && Value(r[i + 1].network) == (Value(r[i].broadcast) + 1) % Two32
  {
    var r := DivideHosts(start, hosts);
    var s := Starts(start, hosts);
    BlockAt(start, hosts, i);
    BlockAt(start, hosts, i + 1);
    StartsNext(start, hosts, i);
    NextReading(Value(r[i + 1].network), Value(r[i].network), Value(r[i].broadcast), s[i], s[i + 1], r[i].size);
  }

  /** The wrap-around arithmetic behind contiguity. */
  lemma NextReading(v: int, u: int, last: int, a: int, b: int, k: int)
    requires u == a % Two32 && last == (a + k - 1) % Two32
    requires v == b % Two32 && b == a + k
    ensures v == (u + k) % Two32
    ensures v == (last + 1) % Two32
  {
  }

  /** When all blocks fit in the 32-bit space, no two blocks share a network address. */
  lemma DivideHostsDistinct(start: int, hosts: seq<int>, i: int, j: int)
    requires Span(hosts, 0, |hosts|) <= Two32
    requires 0 <= i < j < |hosts|
    ensures DivideHosts(start, hosts)[i].network != DivideHosts(start, hosts)[j].network
  {
    var r := DivideHosts(start, hosts);
    var s := Starts(start, hosts);
    SpanSplit(hosts, 0, i, j);
    SpanCons(hosts, i, j);
    SpanSplit(hosts, 0, j, |hosts|);
    SpanCons(hosts, j, |hosts|);
    DivideHostsAt(start, hosts, i);
    DivideHostsAt(start, hosts, j);
    HostBlockAddresses(r[i], s[i], hosts[i]);
    HostBlockAddresses(r[j], s[j], hosts[j]);
    DistinctMod(s[i], s[j]);
  }

  /** Addresses less than 2^32 apart wrap to different values. */
  lemma DistinctMod(a: int, b: int)
    requires 0 < b - a < Two32
    ensures a % Two32 != b % Two32
  {
  }
}
