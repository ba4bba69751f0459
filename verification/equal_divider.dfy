/** The equal-size divider (`calcularSubredes`): split a base network into
    `count` blocks of one common size, the least number of extra prefix bits
    that yields at least `count` blocks, refusing prefixes longer than /30. */
module EqualDivider {
  import opened Optional
  import opened Bits
  import opened Address

  /** The longest prefix the divider accepts. */
  const MaxPrefix: int := 30

  /** One row of the result. As in the source, the network is kept in dotted
      form while the broadcast is kept as the raw (unwrapped) integer. */
  datatype Subnet = Subnet(network: Dotted, prefix: int, mask: Dotted, broadcast: int)

  /** The whole result: the rows, their common mask, the block size (`salto`)
      and the octet position `ceil(prefix / 8)` (`octeto`). */
  datatype Division = Division(subnets: seq<Subnet>, mask: Dotted, step: nat, octet: int)

  /** Row `i` of the layout: the block that starts `i` steps after the base. */
  function SubnetAt(baseInt: int, prefix: int, step: nat, i: int): Subnet {
    var net := baseInt + i * step;
    Subnet(IntToIp(net), prefix, PrefixToMask(prefix), net + step - 1)
  }

  /** The row loop `for (i = from; i < count; i++)`. */
  function Layout(baseInt: int, prefix: int, step: nat, from: int, count: int): (r: seq<Subnet>)
    ensures |r| == if from < count then count - from else 0
    ensures forall j :: 0 <= j < |r| ==> r[j] == SubnetAt(baseInt, prefix, step, from + j)
    decreases count - from
  {
    if from >= count then []
    else
      var rest := Layout(baseInt, prefix, step, from + 1, count);
      var r := [SubnetAt(baseInt, prefix, step, from)] + rest;
      assert forall j :: 1 <= j < |r| ==> r[j] == rest[j - 1] && from + 1 + (j - 1) == from + j;
      r
  }

  /** `Math.ceil(p / 8)` for any integer p. */
  function CeilDiv8(p: int): (r: int)
    ensures 8 * (r - 1) < p <= 8 * r
  {
    (p + 7) / 8
  }

  /** `calcularSubredes(base/prefix, count)`. */
  function Divide(base: Dotted, prefix: int, count: int): (r: Option<Division>)
    ensures r.None? <==> prefix + BitsFor(count) > MaxPrefix
    ensures r.Some? ==>
      && prefix + BitsFor(count) <= MaxPrefix
      && r.value.step == Pow2(32 - (prefix + BitsFor(count)))
      && r.value.mask == PrefixToMask(prefix + BitsFor(count))
      && r.value.octet == CeilDiv8(prefix + BitsFor(count))
      && |r.value.subnets| == (if count > 0 then count else 0)
      && forall i :: 0 <= i < |r.value.subnets| ==>
           r.value.subnets[i] == SubnetAt(IpToInt(base), prefix + BitsFor(count), r.value.step, i)
  {
    var bits := BitsFor(count);
    var newPrefix := prefix + bits;
    if newPrefix > MaxPrefix then None
    else
      var step := Pow2(32 - newPrefix);
      Some(Division(Layout(IpToInt(base), newPrefix, step, 0, count),
                    PrefixToMask(newPrefix), step, CeilDiv8(newPrefix)))
  }

  /** The divider fails exactly when no number of extra bits that gives at
      least `count` blocks keeps the prefix at /30 or shorter. */
  lemma DivideFailsIff(base: Dotted, prefix: int, count: int)
    ensures Divide(base, prefix, count).None? <==>
            !exists b: nat :: count <= Pow2(b) && prefix + b <= MaxPrefix
  {
    NoRoomIff(prefix, count);
  }

  lemma NoRoomIff(prefix: int, count: int)
    ensures prefix + BitsFor(count) > MaxPrefix <==>
            !exists b: nat :: count <= Pow2(b) && prefix + b <= MaxPrefix
  {
    if prefix + BitsFor(count) > MaxPrefix {
      forall b: nat | count <= Pow2(b)
        ensures prefix + b > MaxPrefix
      {
        BitsForLeast(count, b);
      }
    } else {
      RoomWitness(prefix, count);
    }
  }

  lemma RoomWitness(prefix: int, count: int)
    requires prefix + BitsFor(count) <= MaxPrefix
    ensures exists b: nat :: count <= Pow2(b) && prefix + b <= MaxPrefix
  {
    var w: nat := BitsFor(count);
    assert count <= Pow2(w);
    assert prefix + w <= MaxPrefix;
  }

  /** Row i of the layout is a block of `step` addresses: its network is the
      address one step below the address after its broadcast. */
  lemma SubnetAtBlock(baseInt: int, prefix: int, step: nat, i: int)
    ensures var s := SubnetAt(baseInt, prefix, step, i);
      s.network == IntToIp(s.broadcast - step + 1)
  {
  }

  /** Row i+1 of the layout starts right after row i's broadcast. */
  lemma SubnetAtNext(baseInt: int, prefix: int, step: nat, i: int)
    ensures IntToIp(SubnetAt(baseInt, prefix, step, i).broadcast + 1)
         == SubnetAt(baseInt, prefix, step, i + 1).network
  {
    assert baseInt + i * step + step == baseInt + (i + 1) * step;
  }

  /** Every row is a block of the new prefix: same prefix and mask as the
      division, a block of `step` addresses, and placed a whole number of
      steps after the base. */
  lemma DivideRows(base: Dotted, prefix: int, count: int, i: int)
    requires Divide(base, prefix, count).Some?
    requires 0 <= i < |Divide(base, prefix, count).value.subnets|
    ensures var d := Divide(base, prefix, count).value;
      && d.subnets[i].prefix == prefix + BitsFor(count)
      && d.subnets[i].mask == d.mask
      && d.step == Pow2(32 - d.subnets[i].prefix)
      && d.subnets[i].network == IntToIp(d.subnets[i].broadcast - d.step + 1)
      && d.subnets[i].network == IntToIp(IpToInt(base) + i * d.step)
  {
    var d := Divide(base, prefix, count).value;
    SubnetAtBlock(IpToInt(base), prefix + BitsFor(count), d.step, i);
  }

  /** Row i+1 starts at the address right after row i's broadcast. */
  lemma DivideContiguous(base: Dotted, prefix: int, count: int, i: int)
    requires Divide(base, prefix, count).Some?
    requires 0 <= i && i + 1 < |Divide(base, prefix, count).value.subnets|
    ensures var s := Divide(base, prefix, count).value.subnets;
      IntToIp(s[i].broadcast + 1) == s[i + 1].network
  {
    var d := Divide(base, prefix, count).value;
    SubnetAtNext(IpToInt(base), prefix + BitsFor(count), d.step, i);
  }

  /** The rows stay inside the base block: for a non-negative base prefix the
      last broadcast is at most the base block's last address. */
  lemma DivideWithinBase(base: Dotted, prefix: int, count: int)
    requires 0 <= prefix
    requires Divide(base, prefix, count).Some?
    requires count >= 1
    ensures var d := Divide(base, prefix, count).value;
      d.subnets[count - 1].broadcast <= IpToInt(base) + Pow2(32 - prefix) - 1
  {
    var d := Divide(base, prefix, count).value;
    var bits := BitsFor(count);
    var np := prefix + bits;
    assert Pow2(32 - prefix) == d.step * Pow2(bits) by {
      Pow2Add(32 - np, bits);
    }
    LastBroadcastBound(IpToInt(base), np, d.step, count, Pow2(bits));
  }

  lemma LastBroadcastBound(baseInt: int, prefix: int, step: nat, count: int, blocks: int)
    requires 1 <= count <= blocks
    ensures SubnetAt(baseInt, prefix, step, count - 1).broadcast <= baseInt + step * blocks - 1
  {
    assert (count - 1) * step + step == count * step;
    MulMonotone(step, count, blocks);
  }

  lemma MulMonotone(k: nat, a: int, b: int)
    requires a <= b
    ensures k * a <= k * b
  {
  }

  /** Distinct rows occupy disjoint, increasing raw ranges. */
  lemma DivideDisjoint(base: Dotted, prefix: int, count: int, i: int, j: int)
    requires Divide(base, prefix, count).Some?
    requires 0 <= i < j < |Divide(base, prefix, count).value.subnets|
    ensures var d := Divide(base, prefix, count).value;
      d.subnets[i].broadcast < d.subnets[j].broadcast - d.step + 1
  {
    var d := Divide(base, prefix, count).value;
    LayoutOrdered(IpToInt(base), prefix + BitsFor(count), d.step, i, j);
  }

  lemma LayoutOrdered(baseInt: int, prefix: int, step: nat, i: int, j: int)
    requires i < j
    ensures SubnetAt(baseInt, prefix, step, i).broadcast < SubnetAt(baseInt, prefix, step, j).broadcast - step + 1
  {
    assert i * step + step == (i + 1) * step;
    MulMonotone(step, i + 1, j);
  }
}
