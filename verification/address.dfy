/** Address arithmetic: dotted octets, the 32-bit integer view of an address, and
    prefix-length masks (CIDR prefix notation, section 3.1 of RFC 4632).

    The source works on JavaScript numbers: `ipToInt` uses the signed shift `<<`,
    so an address whose first octet is 128 or more comes out negative, and
    `intToIp` uses `>>` followed by `& 255`, so it reads its argument modulo 2^32.
    Both are modelled exactly through ToInt32, the two's-complement reading. */
module Address {
  import opened Bits

  const Two31: int := 0x8000_0000
  const Two32: int := 0x1_0000_0000

  /** An address or mask in dotted form, most significant octet first. */
  datatype Dotted = Dotted(a: int, b: int, c: int, d: int)

  predicate IsOctet(x: int) {
    0 <= x < 256
  }

  predicate WellFormed(ip: Dotted) {
    IsOctet(ip.a) && IsOctet(ip.b) && IsOctet(ip.c) && IsOctet(ip.d)
  }

  /** Big-endian unsigned reading of the four octets. */
  function Value(ip: Dotted): int {
    ip.a * 0x100_0000 + ip.b * 0x1_0000 + ip.c * 0x100 + ip.d
  }

  /** Octet `k` (0 = leftmost) of a dotted value. */
  function Octet(ip: Dotted, k: nat): int
    requires k < 4
  {
    if k == 0 then ip.a else if k == 1 then ip.b else if k == 2 then ip.c else ip.d
  }

  /** ECMAScript ToInt32: the unique value in [-2^31, 2^31) congruent to x modulo 2^32. */
  function ToInt32(x: int): (r: int)
    ensures -Two31 <= r < Two31
    ensures (x - r) % Two32 == 0
  {
    var m := x % Two32;
    if m >= Two31 then m - Two32 else m
  }

  lemma ToInt32Unique(x: int, y: int)
    requires -Two31 <= y < Two31
    requires (x - y) % Two32 == 0
    ensures ToInt32(x) == y
  {
  }

  /** An unsigned 32-bit value is recovered from its signed reading modulo 2^32. */
  lemma ToInt32OfValue(v: int)
    requires 0 <= v < Two32
    ensures ToInt32(v) % Two32 == v
  {
  }

  /** JavaScript `x << 8`. */
  function ShiftLeft8(x: int): int {
    ToInt32(ToInt32(x) * 256)
  }

  /** The `reduce` in `ipToInt`: `acc = (acc << 8) + octet` over the octets. */
  function Pack(acc: int, octets: seq<int>): int
    decreases |octets|
  {
    if octets == [] then acc else Pack(ShiftLeft8(acc) + octets[0], octets[1..])
  }

  /** `ipToInt`: the signed 32-bit reading of a dotted address. */
  function IpToInt(ip: Dotted): (r: int)
    ensures WellFormed(ip) ==> r == ToInt32(Value(ip))
  {
    PackClosedForm(ip);
    Pack(0, [ip.a, ip.b, ip.c, ip.d])
  }

  /** `x << 8` does not wrap while x stays below 2^23. */
  lemma ShiftLeft8Small(x: int)
    requires 0 <= x < 0x80_0000
    ensures ShiftLeft8(x) == x * 256
  {
  }

  /** The last `<< 8` of the fold wraps exactly when the whole value does. */
  lemma ShiftLeft8Last(high: int, d: int)
    requires 0 <= high < 0x100_0000
    requires IsOctet(d)
    ensures ShiftLeft8(high) + d == ToInt32(high * 256 + d)
  {
    var v := high * 256 + d;
    ToInt32InRange(high);
    ToInt32InRange(high * 256);
    ToInt32InRange(v);
    assert high * 256 >= Two31 <==> v >= Two31;
  }

  /** On 0..2^32 - 1, ToInt32 subtracts 2^32 from the upper half only. */
  lemma ToInt32InRange(x: int)
    requires 0 <= x < Two32
    ensures ToInt32(x) == if x >= Two31 then x - Two32 else x
  {
  }

  lemma PackClosedForm(ip: Dotted)
    ensures WellFormed(ip) ==> Pack(0, [ip.a, ip.b, ip.c, ip.d]) == ToInt32(Value(ip))
  {
    if WellFormed(ip) {
      var s := [ip.a, ip.b, ip.c, ip.d];
      ShiftLeft8Small(0);
      var acc1 := ip.a;
      ShiftLeft8Small(acc1);
      var acc2 := acc1 * 256 + ip.b;
      ShiftLeft8Small(acc2);
      var acc3 := acc2 * 256 + ip.c;
      ShiftLeft8Last(acc3, ip.d);
      assert acc3 * 256 + ip.d == Value(ip);
      assert s[1..] == [ip.b, ip.c, ip.d];
      assert [ip.b, ip.c, ip.d][1..] == [ip.c, ip.d];
      assert [ip.c, ip.d][1..] == [ip.d];
      assert [ip.d][1..] == [];
      calc {
        Pack(0, s);
        Pack(acc1, [ip.b, ip.c, ip.d]);
        Pack(acc2, [ip.c, ip.d]);
        Pack(acc3, [ip.d]);
        Pack(ToInt32(Value(ip)), []);
      }
    }
  }

  /** Decomposition of a 32-bit value into its four bytes. */
  lemma Digits(m: int)
    requires 0 <= m < Two32
    ensures m == (m / 0x100_0000) * 0x100_0000 + ((m / 0x1_0000) % 256) * 0x1_0000
                 + ((m / 0x100) % 256) * 0x100 + m % 256
    ensures 0 <= m / 0x100_0000 < 256
  {
    var a := m / 0x100_0000;
    var r := m % 0x100_0000;
    var b := r / 0x1_0000;
    var c := (r % 0x1_0000) / 0x100;
    var d := m % 0x100;
    assert m == a * 0x100_0000 + b * 0x1_0000 + c * 0x100 + d;
    DivBy(m, 0x1_0000, a * 0x100 + b, c * 0x100 + d);
    DivBy(m, 0x100, a * 0x1_0000 + b * 0x100 + c, d);
    DivBy(a * 0x100 + b, 0x100, a, b);
    DivBy(a * 0x1_0000 + b * 0x100 + c, 0x100, a * 0x100 + b, c);
  }

  /** Division with a known quotient and remainder. */
  lemma DivBy(m: int, unit: int, q: int, r: int)
    requires 0 < unit && 0 <= r < unit
    requires m == q * unit + r
    ensures m / unit == q && m % unit == r
  {
    var q', r' := m / unit, m % unit;
    assert (q - q') * unit == r' - r;
    if q > q' {
      MulAtLeast(q - q', unit);
    } else if q < q' {
      MulAtLeast(q' - q, unit);
    }
  }

  lemma MulAtLeast(a: int, unit: int)
    requires 1 <= a && 0 < unit
    ensures a * unit >= unit
  {
  }

  /** Reading a byte of the signed value equals reading it of the value mod 2^32. */
  lemma ByteAtMod(x: int)
    ensures (ToInt32(x) / 0x100_0000) % 256 == (x % Two32) / 0x100_0000
    ensures (ToInt32(x) / 0x1_0000) % 256 == ((x % Two32) / 0x1_0000) % 256
    ensures (ToInt32(x) / 0x100) % 256 == ((x % Two32) / 0x100) % 256
    ensures ToInt32(x) % 256 == (x % Two32) % 256
  {
    SignedByte24(ToInt32(x), x % Two32);
    SignedByte16(ToInt32(x), x % Two32);
    SignedByte8(ToInt32(x), x % Two32);
    SignedByte0(ToInt32(x), x % Two32);
  }

  lemma SignedByte24(t: int, m: int)
    requires 0 <= m < Two32
    requires t == m || t == m - Two32
    ensures (t / 0x100_0000) % 256 == m / 0x100_0000
  {
  }

  lemma SignedByte16(t: int, m: int)
    requires 0 <= m < Two32
    requires t == m || t == m - Two32
    ensures (t / 0x1_0000) % 256 == (m / 0x1_0000) % 256
  {
  }

  lemma SignedByte8(t: int, m: int)
    requires 0 <= m < Two32
    requires t == m || t == m - Two32
    ensures (t / 0x100) % 256 == (m / 0x100) % 256
  {
  }

  lemma SignedByte0(t: int, m: int)
    requires 0 <= m < Two32
    requires t == m || t == m - Two32
    ensures t % 256 == m % 256
  {
  }

  /** `intToIp` as written: octet k is `(x >> s) & 255` for s = 24, 16, 8, 0,
      where `>>` is the arithmetic shift of the signed 32-bit reading (a floor
      division by 2^s) and `& 255` keeps the low eight bits. */
  function IntToIpShifts(x: int): Dotted {
    var t := ToInt32(x);
    Dotted((t / 0x100_0000) % 256, (t / 0x1_0000) % 256, (t / 0x100) % 256, t % 256)
  }

  /** `intToIp`, stated on x modulo 2^32: the four bytes of that value. */
  function IntToIp(x: int): (r: Dotted)
    ensures WellFormed(r)
    ensures Value(r) == x % Two32
  {
    var m := x % Two32;
    Digits(m);
    Dotted(m / 0x100_0000, (m / 0x1_0000) % 256, (m / 0x100) % 256, m % 256)
  }

  /** The signed shifts of the source and the modular reading agree on every integer. */
  lemma IntToIpShiftsAgree(x: int)
    ensures IntToIpShifts(x) == IntToIp(x)
  {
    ByteAtMod(x);
  }

  /** Two well-formed dotted values with the same reading are the same. */
  lemma ValueInjective(p: Dotted, q: Dotted)
    requires WellFormed(p) && WellFormed(q)
    requires Value(p) == Value(q)
    ensures p == q
  {
  }

  /** Round trip from octets: `intToIp(ipToInt(o)) == o` for octets in 0..255. */
  lemma RoundTrip(ip: Dotted)
    requires WellFormed(ip)
    ensures IntToIp(IpToInt(ip)) == ip
  {
    var x := IpToInt(ip);
    assert x == ToInt32(Value(ip));
    ToInt32OfValue(Value(ip));
    assert Value(IntToIp(x)) == Value(ip);
    ValueInjective(IntToIp(x), ip);
  }

  /** Round trip from integers: `ipToInt(intToIp(x))` is the signed 32-bit reading of x. */
  lemma IntRoundTrip(x: int)
    ensures IpToInt(IntToIp(x)) == ToInt32(x)
  {
    ToInt32Mod(x);
  }

  lemma ToInt32Mod(x: int)
    ensures ToInt32(x % Two32) == ToInt32(x)
  {
  }

  /** The signed reading is congruent to its argument modulo 2^32. */
  lemma ToInt32Congruent(x: int)
    ensures ToInt32(x) % Two32 == x % Two32
  {
  }

  /** Congruence modulo 2^32 survives adding the same offset. */
  lemma ModShift(a: int, b: int, k: int)
    requires a % Two32 == b % Two32
    ensures (a + k) % Two32 == (b + k) % Two32
  {
    var q := a / Two32 - b / Two32;
    assert a + k == (b + k) + q * Two32;
    ModMultiple(b + k, q);
  }

  lemma ModMultiple(x: int, q: int)
    ensures (x + q * Two32) % Two32 == x % Two32
  {
  }

  /** Adding k to the signed reading of x lands on the same address as x + k. */
  lemma ShiftedReading(x: int, k: int)
    ensures IntToIp(ToInt32(x) + k) == IntToIp(x + k)
  {
    ToInt32Congruent(x);
    ModShift(ToInt32(x), x, k);
    IntToIpEqual(ToInt32(x) + k, x + k);
  }

  /** Moving k addresses along moves the unsigned reading by k, modulo 2^32. */
  lemma ShiftedValue(x: int, k: int)
    ensures Value(IntToIp(x + k)) == (Value(IntToIp(x)) + k) % Two32
  {
    ModOffset(x, k);
  }

  /** Reducing modulo 2^32 before adding an offset changes nothing modulo 2^32. */
  lemma ModOffset(x: int, k: int)
    ensures (x % Two32 + k) % Two32 == (x + k) % Two32
  {
    ModShift(x % Two32, x, k);
  }

  /** Reading an address back with `ipToInt` and adding k lands where adding k
      to the original integer does. */
  lemma ReadBack(d: Dotted, x: int, k: int)
    requires d == IntToIp(x)
    ensures IntToIp(IpToInt(d) + k) == IntToIp(x + k)
  {
    IntRoundTrip(x);
    ShiftedReading(x, k);
  }

  /** The same, as unsigned readings: k further along, modulo 2^32. */
  lemma ReadBackValue(d: Dotted, x: int, k: int)
    requires d == IntToIp(x)
    ensures Value(IntToIp(IpToInt(d) + k)) == (Value(d) + k) % Two32
  {
    ReadBack(d, x, k);
    ShiftedValue(x, k);
  }

  /** IntToIp identifies exactly the integers that agree modulo 2^32. */
  lemma IntToIpEqual(x: int, y: int)
    ensures IntToIp(x) == IntToIp(y) <==> x % Two32 == y % Two32
  {
    if x % Two32 == y % Two32 {
      ValueInjective(IntToIp(x), IntToIp(y));
    }
  }

  /** The clamped remaining prefix used for the next octet (`prefix -= 8; if (prefix < 0) prefix = 0`). */
  function Drop8(p: int): int {
    if p - 8 < 0 then 0 else p - 8
  }

  /** One mask octet for the remaining prefix length p. */
  function MaskOctet(p: int): int {
    if p >= 8 then 255 else if p > 0 then 256 - Pow2(8 - p) else 0
  }

  /** The nine octet values a contiguous mask can hold. */
  predicate IsMaskOctet(x: int) {
    x in {0, 128, 192, 224, 240, 248, 252, 254, 255}
  }

  /** For 0 <= p <= 8 the octet is 256 - 2^(8-p): p leading ones out of eight. */
  lemma MaskOctetValue(p: int)
    ensures 0 <= p <= 8 ==> MaskOctet(p) == 256 - Pow2(8 - p)
    ensures IsMaskOctet(MaskOctet(p))
  {
    Pow2Table();
    if 0 < p < 8 {
      assert p == 1 || p == 2 || p == 3 || p == 4 || p == 5 || p == 6 || p == 7;
    }
  }

  lemma MaskOctetMonotone(p: int, q: int)
    requires q <= p || q <= 0
    ensures MaskOctet(q) <= MaskOctet(p)
  {
    if 0 < p < 8 {
      Pow2Monotone(8 - p, 8);
      Pow2Table();
      if 0 < q {
        Pow2Monotone(8 - p, 8 - q);
      }
    }
  }

  /** `prefixToMask`: four octets, the prefix consumed eight bits at a time. */
  function PrefixToMask(prefix: int): Dotted {
    var p1 := Drop8(prefix);
    var p2 := Drop8(p1);
    var p3 := Drop8(p2);
    Dotted(MaskOctet(prefix), MaskOctet(p1), MaskOctet(p2), MaskOctet(p3))
  }

  /** Every mask is four contiguous-ones octets, non-increasing from left to
      right; prefixes at or below 0 give 0.0.0.0 and at or above 32 give
      255.255.255.255. */
  lemma MaskShape(prefix: int)
    ensures var m := PrefixToMask(prefix);
      && WellFormed(m)
      && IsMaskOctet(m.a) && IsMaskOctet(m.b) && IsMaskOctet(m.c) && IsMaskOctet(m.d)
      && m.a >= m.b >= m.c >= m.d
      && (prefix <= 0 ==> m == Dotted(0, 0, 0, 0))
      && (prefix >= 32 ==> m == Dotted(255, 255, 255, 255))
  {
    var p1 := Drop8(prefix);
    var p2 := Drop8(p1);
    var p3 := Drop8(p2);
    MaskOctetValue(prefix);
    MaskOctetValue(p1);
    MaskOctetValue(p2);
    MaskOctetValue(p3);
    MaskOctetMonotone(prefix, p1);
    MaskOctetMonotone(p1, p2);
    MaskOctetMonotone(p2, p3);
  }

  /** Octet k of the mask is full when at least eight prefix bits reach it and
      empty when none do. */
  lemma MaskOctetBands(p: int, k: nat)
    requires k < 4
    ensures p - 8 * k >= 8 ==> Octet(PrefixToMask(p), k) == 255
    ensures p - 8 * k <= 0 ==> Octet(PrefixToMask(p), k) == 0
  {
  }

  /** The mask of prefix p reads as 2^32 - 2^(32-p): p one-bits followed by zeros. */
  lemma MaskValue(p: int)
    requires 0 <= p <= 32
    ensures Value(PrefixToMask(p)) == Two32 - Pow2(32 - p)
  {
    if p <= 8 {
      MaskValueBand(p, 0);
    } else if p <= 16 {
      MaskValueBand(p, 1);
    } else if p <= 24 {
      MaskValueBand(p, 2);
    } else {
      MaskValueBand(p, 3);
    }
  }

  /** Band k: octets before k are full, octet k holds the remaining bits. */
  lemma MaskValueBand(p: int, k: nat)
    requires k < 4
    requires 8 * k <= p <= 8 * k + 8
    ensures Value(PrefixToMask(p)) == Two32 - Pow2(32 - p)
  {
    var r := p - 8 * k;
    MaskOctetValue(r);
    var top := Pow2(32 - 8 * k);
    var unit := Pow2(24 - 8 * k);
    assert Pow2(32 - p) == Pow2(8 - r) * unit by {
      Pow2Add(8 - r, 24 - 8 * k);
    }
    assert top == 256 * unit by {
      Pow2Add(8, 24 - 8 * k);
      Pow2Table();
    }
    BandSum(p, k, MaskOctet(r), Pow2(8 - r), unit);
  }

  lemma BandSum(p: int, k: nat, o: int, low: int, unit: int)
    requires k < 4
    requires 8 * k <= p <= 8 * k + 8
    requires o == MaskOctet(p - 8 * k) && o == 256 - low
    requires unit == Pow2(24 - 8 * k)
    ensures Value(PrefixToMask(p)) == Two32 - low * unit
  {
    Pow2Table();
    assert Pow2(24 - 8 * k) == (if k == 0 then 0x100_0000 else if k == 1 then 0x1_0000 else if k == 2 then 0x100 else 1);
    var m := PrefixToMask(p);
    if k == 0 {
      assert m == Dotted(o, 0, 0, 0);
    } else if k == 1 {
      assert m == Dotted(255, o, 0, 0);
    } else if k == 2 {
      assert m == Dotted(255, 255, o, 0);
    } else {
      assert m == Dotted(255, 255, 255, o);
    }
  }

  /** Number of consecutive one-bits at the top of a `width`-bit value. */
  function LeadingOnes(v: int, width: nat): nat {
    if width == 0 then 0
    else if v >= Pow2(width - 1) then 1 + LeadingOnes(v - Pow2(width - 1), width - 1)
    else 0
  }

  lemma {:induction false} LeadingOnesOfRun(p: nat, w: nat)
    requires p <= w
    ensures LeadingOnes(Pow2(w) - Pow2(w - p), w) == p
  {
    if w > 0 {
      assert Pow2(w) == 2 * Pow2(w - 1);
      if p == 0 {
        assert Pow2(w) - Pow2(w - p) == 0;
      } else {
        Pow2Monotone(w - p, w - 1);
        LeadingOnesOfRun(p - 1, w - 1);
        assert Pow2(w) - Pow2(w - p) - Pow2(w - 1) == Pow2(w - 1) - Pow2((w - 1) - (p - 1));
      }
    }
  }

  /** The mask of prefix p has exactly p leading one-bits, and it is that run of
      ones followed by 32 - p zero bits. */
  lemma MaskLeadingOnes(p: int)
    requires 0 <= p <= 32
    ensures LeadingOnes(Value(PrefixToMask(p)), 32) == p
    ensures Value(PrefixToMask(p)) == (Pow2(p) - 1) * Pow2(32 - p)
  {
    MaskValue(p);
    MaskRunCount(Value(PrefixToMask(p)), p);
    MaskRunShape(Value(PrefixToMask(p)), p);
  }

  lemma MaskRunCount(v: int, p: int)
    requires 0 <= p <= 32
    requires v == Two32 - Pow2(32 - p)
    ensures LeadingOnes(v, 32) == p
  {
    Pow2Is32();
    LeadingOnesOfRun(p, 32);
  }

  lemma MaskRunShape(v: int, p: int)
    requires 0 <= p <= 32
    requires v == Two32 - Pow2(32 - p)
    ensures v == (Pow2(p) - 1) * Pow2(32 - p)
  {
    Pow2Is32();
    Pow2Add(32 - p, p);
    RunShape(v, Pow2(32 - p), Pow2(p), Two32);
  }

  /** The address-space size `Two32` is the power 2^32. */
  lemma Pow2Is32()
    ensures Pow2(32) == Two32
  {
    Pow2Table();
  }

  lemma RunShape(v: int, k: int, j: int, total: int)
    requires total == k * j
    requires v == total - k
    ensures v == (j - 1) * k
  {
  }
}
