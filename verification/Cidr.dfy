/** CIDR arithmetic: the last address of a prefix, the bounds a range query uses, and the usable hosts. */
module Cidr {
  import opened Basics

  function Pow2(k: nat): (p: nat)
    ensures p > 0
  {
    if k == 0 then 1 else 2 * Pow2(k - 1)
  }

  /** a | b. */
  function Or(a: nat, b: nat): nat {
    if a == 0 && b == 0 then 0 else 2 * Or(a / 2, b / 2) + (if a % 2 == 1 || b % 2 == 1 then 1 else 0)
  }

  /** a & b. */
  function And(a: nat, b: nat): nat {
    if a == 0 || b == 0 then 0 else 2 * And(a / 2, b / 2) + (if a % 2 == 1 && b % 2 == 1 then 1 else 0)
  }

  // ----- prefixes -----

  /** netip.Prefix.Masked: the host bits cleared. */
  function Masked(x: nat, host: nat): (r: nat)
    ensures r <= x
  {
    if host == 0 then x else 2 * Masked(x / 2, host - 1)
  }

  function LastOf(x: nat, host: nat): nat { Masked(x, host) + Pow2(host) - 1 }

  predicate SamePrefix(x: nat, y: nat, host: nat) { x / Pow2(host) == y / Pow2(host) }

  lemma DivUnique(x: nat, m: nat, q: nat)
    requires m > 0
    ensures q * m <= x < q * m + m <==> x / m == q
  {
    assert x == (x / m) * m + x % m;
    MulOrder(x / m, q, m);
    MulOrder(q, x / m, m);
  }

  lemma {:induction false} MulOrder(a: nat, b: nat, m: nat)
    ensures a < b ==> a * m + m <= b * m
  {
    if a < b {
      MulOrder(a, b - 1, m);
      assert b * m == (b - 1) * m + m;
    }
  }

  lemma {:induction false} DivTwice(x: nat, m: nat)
    requires m > 0
    ensures x / (2 * m) == x / 2 / m
  {
    var q := x / 2 / m;
    DivUnique(x / 2, m, q);
    Twice(q, m);
    DivUnique(x, 2 * m, q);
  }

  lemma {:induction false} MaskedIs(x: nat, host: nat)
    ensures Masked(x, host) == (x / Pow2(host)) * Pow2(host)
  {
    if host > 0 {
      var m := Pow2(host - 1);
      MaskedIs(x / 2, host - 1);
      DivTwice(x, m);
      Twice(x / 2 / m, m);
    }
  }

  lemma Twice(q: nat, m: nat)
    ensures 2 * (q * m) == q * (2 * m)
  {
  }

  /** The addresses between a prefix's first and last are exactly those that share the prefix. */
  lemma BoundsAreThePrefix(x: nat, y: nat, host: nat)
    ensures Masked(x, host) <= y <= LastOf(x, host) <==> SamePrefix(y, x, host)
  {
    var m := Pow2(host);
    MaskedIs(x, host);
    DivUnique(y, m, x / m);
  }

  // ----- or-ing in the host bits -----

  lemma {:induction false} OrHostBits(x: nat, host: nat)
    ensures Or(x, Pow2(host) - 1) == LastOf(x, host)
  {
    if host == 0 {
      OrZero(x);
    } else {
      OrHostBits(x / 2, host - 1);
      var m := Pow2(host - 1);
      assert (2 * m - 1) / 2 == m - 1 && (2 * m - 1) % 2 == 1;
    }
  }

  lemma {:induction false} OrZero(x: nat)
    ensures Or(x, 0) == x
  {
    if x > 0 {
      OrZero(x / 2);
    }
  }

  lemma {:induction false} AndNetBits(x: nat, host: nat, width: nat)
    requires host <= width && x < Pow2(width)
    ensures Pow2(host) <= Pow2(width) && And(x, Pow2(width) - Pow2(host)) == Masked(x, host)
  {
    if host == 0 {
      AndOnes(x, width);
    } else {
      var m, w := Pow2(host - 1), Pow2(width - 1);
      AndNetBits(x / 2, host - 1, width - 1);
      assert (2 * w - 2 * m) / 2 == w - m && (2 * w - 2 * m) % 2 == 0;
    }
  }

  lemma {:induction false} AndOnes(x: nat, width: nat)
    requires x < Pow2(width)
    ensures And(x, Pow2(width) - 1) == x
  {
    if x > 0 {
      AndOnes(x / 2, width - 1);
      var w := Pow2(width - 1);
      assert (2 * w - 1) / 2 == w - 1 && (2 * w - 1) % 2 == 1;
    }
  }

  lemma {:induction false} PowSum(a: nat, b: nat)
    ensures Pow2(a + b) == Pow2(a) * Pow2(b)
  {
    if a > 0 {
      PowSum(a - 1, b);
    }
  }

  lemma ShiftedOnes(bits: nat, width: nat)
    requires bits <= width
    ensures (Pow2(width) - 1) / Pow2(bits) == Pow2(width - bits) - 1 && Pow2(width - bits) <= Pow2(width)
  {
    var m, q := Pow2(bits), Pow2(width - bits);
    PowSum(width - bits, bits);
    LessOne(q, m);
    DivUnique(q * m - 1, m, q - 1);
  }

  lemma LessOne(q: nat, m: nat)
    requires m > 0 && q > 0
    ensures (q - 1) * m == q * m - m && q * m >= q
  {
  }

  /** All ones of the width, shifted right by bits: uint32(0xffffffff) >> bits for a width of 32. */
  function HostMask(bits: nat, width: nat): (mask: nat)
    requires bits <= width
    ensures mask < Pow2(width)
  {
    ShiftedOnes(bits, width);
    (Pow2(width) - 1) / Pow2(bits)
  }

  /** ^host, over the width. */
  function NetMask(bits: nat, width: nat): nat
    requires bits <= width
  {
    Pow2(width) - 1 - HostMask(bits, width)
  }

  lemma HostMaskOrs(x: nat, bits: nat, width: nat)
    requires bits <= width
    ensures HostMask(bits, width) == Pow2(width - bits) - 1
    ensures Or(x, HostMask(bits, width)) == LastOf(x, width - bits)
  {
    ShiftedOnes(bits, width);
    OrHostBits(x, width - bits);
    hide Pow2, Or, Masked;
  }

  /** The wildcard shown is the host mask and the netmask its complement: or-ing the one gives the last address, and-ing
      the other the network. */
  lemma MasksAre(x: nat, bits: nat, width: nat)
    requires bits <= width && x < Pow2(width)
    ensures HostMask(bits, width) == Pow2(width - bits) - 1
    ensures Or(x, HostMask(bits, width)) == LastOf(x, width - bits)
    ensures And(x, NetMask(bits, width)) == Masked(x, width - bits)
  {
    hide Pow2, Or, And, Masked, HostMask, LastOf;
    HostMaskOrs(x, bits, width);
    AndNetBits(x, width - bits, width);
  }

  // ----- the in-place loop over an IPv6 address -----

  predicate Octets(v: seq<nat>) { forall i :: 0 <= i < |v| ==> v[i] < 256 }

  /** Big-endian. */
  function Value(v: seq<nat>): nat { if v == [] then 0 else 256 * Value(v[..|v|-1]) + v[|v|-1] }

  function LowBits(host: nat): nat { if host > 8 then 8 else host }

  /** The bytes with the low host bits or-ed in, from the last one back. */
  function Filled(v: seq<nat>, host: nat): seq<nat> {
    if v == [] || host == 0 then v
    else
      var k := |v| - 1;
      Filled(v[..k], host - LowBits(host)) + [Or(v[k], HostMask(8 - LowBits(host), 8))]
  }

  lemma {:induction false} MaskedLow(v: nat, b: nat, k: nat, h: nat)
    requires h <= k && b < Pow2(k)
    ensures Masked(Pow2(k) * v + b, h) == Pow2(k) * v + Masked(b, h)
  {
    if h > 0 {
      MaskedLow(v, b / 2, k - 1, h - 1);
      Halve(v, b, Pow2(k - 1));
    }
  }

  lemma Halve(v: nat, b: nat, p: nat)
    ensures 2 * p * v == 2 * (p * v) && (2 * p * v + b) / 2 == p * v + b / 2
  {
    assert 2 * p * v == 2 * (p * v);
  }

  lemma {:induction false} MaskedHigh(v: nat, b: nat, k: nat, h: nat)
    requires b < Pow2(k)
    ensures Masked(Pow2(k) * v + b, k + h) == Pow2(k) * Masked(v, h)
  {
    if k > 0 {
      MaskedHigh(v, b / 2, k - 1, h);
      Halve(v, b, Pow2(k - 1));
      Halve(Masked(v, h), 0, Pow2(k - 1));
    }
  }

  lemma ByteIs()
    ensures Pow2(8) == 256
  {
  }

  lemma OneByte(b: nat, n: nat)
    requires b < 256 && n <= 8
    ensures Or(b, HostMask(8 - n, 8)) == LastOf(b, n)
  {
    HostMaskOrs(b, 8 - n, 8);
  }

  lemma ValueSnoc(t: seq<nat>, b: nat)
    ensures Value(t + [b]) == 256 * Value(t) + b
  {
    assert (t + [b])[..|t|] == t;
  }

  lemma LastOfByte(b: nat)
    requires b < 256
    ensures LastOf(b, 8) == 255
  {
    ByteIs();
    MaskedHigh(0, b, 8, 0);
    assert Pow2(8) * 0 + b == b;
  }

  /** The last address, byte by byte from the end. */
  lemma LastSplits(v: nat, b: nat, host: nat)
    requires b < 256
    ensures host <= 8 ==> LastOf(256 * v + b, host) == 256 * v + LastOf(b, host)
    ensures host > 8 ==> LastOf(256 * v + b, host) == 256 * LastOf(v, host - 8) + 255
  {
    ByteIs();
    hide Pow2, Masked;
    if host <= 8 {
      MaskedLow(v, b, 8, host);
    } else {
      MaskedHigh(v, b, 8, host - 8);
      PowSum(8, host - 8);
    }
  }

  lemma LowByteFills(filled: seq<nat>, b: nat, host: nat)
    requires b < 256 && host <= 8
    ensures Value(filled + [Or(b, HostMask(8 - host, 8))]) == LastOf(256 * Value(filled) + b, host)
  {
    hide *;
    OneByte(b, host);
    ValueSnoc(filled, Or(b, HostMask(8 - host, 8)));
    LastSplits(Value(filled), b, host);
  }

  lemma HighByteFills(filled: seq<nat>, v: nat, b: nat, host: nat)
    requires b < 256 && host > 8 && Value(filled) == LastOf(v, host - 8)
    ensures Value(filled + [Or(b, HostMask(0, 8))]) == LastOf(256 * v + b, host)
  {
    hide *;
    OneByte(b, 8);
    LastOfByte(b);
    ValueSnoc(filled, Or(b, HostMask(0, 8)));
    LastSplits(v, b, host);
  }

  /** The filled bytes are the last address of the prefix. */
  lemma {:induction false} FilledIsLast(v: seq<nat>, host: nat)
    requires Octets(v) && host <= 8 * |v|
    ensures Value(Filled(v, host)) == LastOf(Value(v), host)
    decreases |v|
  {
    hide Or, HostMask, LastOf, Pow2;
    if host == 0 {
      FilledNone(v);
      LastOfNone(Value(v));
    } else {
      var k := |v| - 1;
      FilledIsLast(v[..k], host - LowBits(host));
      if host > 8 {
        HighByteFills(Filled(v[..k], host - 8), Value(v[..k]), v[k], host);
      } else {
        FilledNone(v[..k]);
        LowByteFills(v[..k], v[k], host);
      }
    }
  }

  lemma LastOfNone(x: nat)
    ensures LastOf(x, 0) == x
  {
  }

  lemma FilledNone(v: seq<nat>)
    ensures Filled(v, 0) == v
  {
  }

  lemma FilledNext(v: seq<nat>, i: nat, host: nat, done: seq<nat>)
    requires i < |v| && host > 0
    ensures Filled(v[..i+1], host) + done
      == Filled(v[..i], host - LowBits(host)) + ([Or(v[i], HostMask(8 - LowBits(host), 8))] + done)
  {
    assert v[..i+1][..i] == v[..i];
    Assoc(Filled(v[..i], host - LowBits(host)), [Or(v[i], HostMask(8 - LowBits(host), 8))], done);
  }

  /** lastAddr's IPv6 loop; the bytes are the address of the prefix. */
  method FillHostBits(v: array<nat>, bits: nat)
    requires v.Length == 16 && bits <= 128
    modifies v
    ensures v[..] == Filled(old(v[..]), 128 - bits)
  {
    hide Filled, Or, HostMask;
    ghost var was := v[..];
    var host := 128 - bits;
    var i := 16;
    assert was[..16] == was && v[16..] == [] && Filled(was, host) + [] == Filled(was, host);
    while i > 0 && host > 0
      invariant 0 <= i <= 16 && 0 <= host <= 8 * i
      invariant forall k :: 0 <= k < i ==> v[k] == was[k]
      invariant Filled(was, 128 - bits) == Filled(was[..i], host) + v[i..]
    {
      i := i - 1;
      ghost var done := v[i+1..];
      FilledNext(was, i, host, done);
      var n := host;
      if n > 8 {
        n := 8;
      }
      v[i] := Or(v[i], HostMask(8 - n, 8));
      assert v[i..] == [v[i]] + done;
      host := host - n;
    }
    FilledNone(was[..i]);
    assert v[..] == was[..i] + v[i..];
  }

  /** The loop turns an address's bytes into the last address that shares its prefix. */
  lemma LoopGivesLast(v: seq<nat>, bits: nat)
    requires |v| == 16 && Octets(v) && bits <= 128
    ensures Value(Filled(v, 128 - bits)) == LastOf(Value(v), 128 - bits)
  {
    FilledIsLast(v, 128 - bits);
  }

  // ----- the IPv4 bounds and the range query -----

  datatype Prefix = Prefix(v4: bool, addr: nat, bits: nat)

  function Width(p: Prefix): nat { if p.v4 then 32 else 128 }

  predicate Parsed(p: Prefix) { p.bits <= Width(p) && p.addr < Pow2(Width(p)) }

  function HostBits(p: Prefix): nat
    requires Parsed(p)
  {
    Width(p) - p.bits
  }

  /** lastAddr of an IPv4 prefix, as the mask computes it. */
  function LastV4(addr: nat, bits: nat): nat
    requires bits <= 32
  {
    Or(addr, HostMask(bits, 32))
  }

  function RangeBounds(p: Prefix): Option<(nat, nat)>
    requires Parsed(p)
  {
    if !p.v4 then None
    else
      var network := Masked(p.addr, HostBits(p));
      Some((network, LastV4(network, p.bits)))
  }

  lemma {:induction false} MaskedTwice(x: nat, host: nat)
    ensures Masked(Masked(x, host), host) == Masked(x, host)
  {
    if host > 0 {
      MaskedTwice(x / 2, host - 1);
    }
  }

  /** So the query for stored ranges that hold an address finds exactly the prefixes the address is in. */
  lemma RangeIsMembership(p: Prefix, ip: nat)
    requires Parsed(p) && p.v4
    ensures var (start, end) := RangeBounds(p).value;
      start <= ip <= end <==> SamePrefix(ip, p.addr, HostBits(p))
  {
    var host, network := HostBits(p), Masked(p.addr, HostBits(p));
    MaskedTwice(p.addr, host);
    HostMaskOrs(network, p.bits, 32);
    BoundsAreThePrefix(p.addr, ip, host);
  }

  // ----- ParseSubnet -----

  datatype Subnet = Subnet(
    network: nat, last: nat, first: nat, final: nat, broadcast: Option<nat>, usable: int, total: nat)

  /** After netip has parsed the prefix; first and final are the first and last host. */
  function SubnetOf(p: Prefix): Subnet
    requires Parsed(p)
  {
    var network, total := Masked(p.addr, HostBits(p)), Pow2(HostBits(p));
    var last := if p.v4 then LastV4(network, p.bits) else LastOf(network, HostBits(p));
    if !p.v4 then Subnet(network, last, network, last, None, total, total)
    else if p.bits == 32 then Subnet(network, last, network, network, None, 1, total)
    else if p.bits == 31 then Subnet(network, last, network, last, None, 2, total)
    else Subnet(network, last, network + 1, if last > 0 then last - 1 else 0, Some(last), total - 2, total)
  }

  ghost function Sharing(p: Prefix): set<nat>
    requires Parsed(p)
  {
    set y: nat | y <= LastOf(p.addr, HostBits(p)) && SamePrefix(y, p.addr, HostBits(p))
  }

  predicate Between(low: nat, y: nat, end: nat) { low <= y < end }

  ghost function Interval(low: nat, end: nat): set<nat> { set y: nat | y < end && Between(low, y, end) }

  lemma {:induction false} IntervalCount(low: nat, n: nat)
    ensures |Interval(low, low + n)| == n
  {
    if n == 0 {
      assert Interval(low, low) == {};
    } else {
      IntervalCount(low, n - 1);
      assert Interval(low, low + n) == Interval(low, low + n - 1) + {low + n - 1};
    }
  }

  /** In every branch the usable count is the hosts from the first to the last, all of them in the prefix; the total is
      how many addresses share it; and only an IPv4 prefix shorter than 31 bits gives up its two ends (RFC 3021,
      section 2). */
  lemma SubnetIsRight(p: Prefix)
    requires Parsed(p)
    ensures var s := SubnetOf(p);
      && s.usable == s.final - s.first + 1
      && s.network <= s.first <= s.final <= s.last == LastOf(p.addr, HostBits(p))
      && s.total == |Sharing(p)| == s.last - s.network + 1
      && (s.usable == s.total - 2 <==> p.v4 && p.bits < 31)
      && s.broadcast == (if p.v4 && p.bits < 31 then Some(s.last) else None)
      && s.network in Sharing(p) && s.last in Sharing(p)
      && (forall y: nat :: y in Sharing(p) ==> s.network <= y <= s.last)
      && (forall y: nat :: s.first <= y <= s.final <==>
            y in Sharing(p) && !(p.v4 && p.bits < 31 && (y == s.network || y == s.last)))
  {
    var host := HostBits(p);
    var network := Masked(p.addr, host);
    MaskedTwice(p.addr, host);
    if p.v4 {
      HostMaskOrs(network, p.bits, 32);
    }
    HostCounts(host);
    SharingCount(p);
    forall y: nat ensures y in Sharing(p) <==> network <= y <= LastOf(p.addr, host) {
      BoundsAreThePrefix(p.addr, y, host);
    }
    hide Sharing;
    hide Pow2, Masked, Or, HostMask, SamePrefix;
  }

  lemma SharingCount(p: Prefix)
    requires Parsed(p)
    ensures |Sharing(p)| == Pow2(HostBits(p))
  {
    var network, end := Masked(p.addr, HostBits(p)), LastOf(p.addr, HostBits(p)) + 1;
    forall y: nat ensures y in Sharing(p) <==> network <= y < end {
      BoundsAreThePrefix(p.addr, y, HostBits(p));
    }
    IntervalCount(network, Pow2(HostBits(p)));
    assert Sharing(p) == Interval(network, end);
  }

  lemma HostCounts(host: nat)
    ensures Pow2(0) == 1 && Pow2(1) == 2 && (host >= 2 ==> Pow2(host) >= 4)
  {
    if host > 2 {
      HostCounts(host - 1);
    }
  }
}
