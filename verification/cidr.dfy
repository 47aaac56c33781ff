/** IP addresses and CIDR ranges: masking as the code does it, and what it amounts to. */
module Cidr {
  import opened Division

  // ----- Addresses -----

  const V4_SIZE := 0x1_0000_0000
  const V6_SIZE := 0x1_0000_0000_0000_0000_0000_0000_0000_0000

  datatype IpAddr = V4(bits: nat) | V6(bits: nat)

  predicate IsIp(ip: IpAddr) { ip.bits < (if ip.V4? then V4_SIZE else V6_SIZE) }

  /** Section 2.5.5.2 of RFC 4291: `::ffff:a.b.c.d`. */
  predicate IsMapped(ip: IpAddr) { ip.V6? && ip.bits / V4_SIZE == 0xFFFF }

  /** `to_canonical`: an IPv4-mapped address unwraps. */
  function Canonical(ip: IpAddr): IpAddr { if IsMapped(ip) then V4(ip.bits % V4_SIZE) else ip }

  // ----- Powers of two and bitwise and -----

  function Pow2(k: nat): (p: nat)
    ensures p >= 1
  {
    if k == 0 then 1 else 2 * Pow2(k - 1)
  }

  /** The bitwise `&` of the low `w` bits. */
  function And(a: nat, b: nat, w: nat): nat {
    if w == 0 then 0 else 2 * And(a / 2, b / 2, w - 1) + (a % 2) * (b % 2)
  }

  /** `MAX << (w - prefix)` in a `w`-bit word, and 0 for the shift by the width. */
  function Mask(w: nat, prefix: nat): nat
    requires prefix <= w
  {
    if prefix == 0 then 0 else (Pow2(w) - 1) * Pow2(w - prefix) % Pow2(w)
  }

  lemma {:induction false} Pow2Add(j: nat, k: nat)
    ensures Pow2(j + k) == Pow2(j) * Pow2(k)
  {
    if j > 0 {
      Pow2Add(j - 1, k);
    }
  }

  lemma {:induction false} Pow2Grows(j: nat, k: nat)
    requires j <= k
    ensures Pow2(j) <= Pow2(k)
  {
    if j < k {
      Pow2Grows(j, k - 1);
    }
  }

  /** All ones above the low `k` of `w` bits. */
  function HighBits(w: nat, k: nat): nat
    requires k <= w
  {
    Pow2Grows(k, w);
    Pow2(w) - Pow2(k)
  }

  lemma ShiftedOnes(big: nat, small: nat)
    requires 0 < small <= big
    ensures (big - 1) * small % big == big - small
  {
    assert (big - 1) * small == (small - 1) * big + (big - small);
    DivUnique((big - 1) * small, big, small - 1, big - small);
  }

  /** The mask has its low `w - prefix` bits clear and the rest set. */
  lemma MaskValue(w: nat, prefix: nat)
    requires prefix <= w
    ensures Mask(w, prefix) == HighBits(w, w - prefix)
  {
    hide Pow2;
    Pow2Grows(w - prefix, w);
    ShiftedOnes(Pow2(w), Pow2(w - prefix));
  }

  lemma {:induction false} AndOnes(a: nat, w: nat)
    requires a < Pow2(w)
    ensures And(a, Pow2(w) - 1, w) == a
  {
    if w > 0 {
      AndOnes(a / 2, w - 1);
      assert (Pow2(w) - 1) / 2 == Pow2(w - 1) - 1 && (Pow2(w) - 1) % 2 == 1;
    }
  }

  lemma AndEven(a: nat, m: nat, w: nat)
    requires w > 0
    ensures And(a, 2 * m, w) == 2 * And(a / 2, m, w - 1)
  {
    assert 2 * m / 2 == m && 2 * m % 2 == 0;
  }

  lemma Halve(a: nat, m: nat)
    requires m > 0
    ensures 2 * (a / 2 / m * m) == a / (2 * m) * (2 * m)
  {
    DivDiv(a, 2, m);
  }

  /** Masking clears the low bits: it rounds down to a multiple of the range's size. */
  lemma {:induction false} AndMask(a: nat, w: nat, k: nat)
    requires a < Pow2(w) && k <= w
    ensures And(a, HighBits(w, k), w) == a / Pow2(k) * Pow2(k)
  {
    hide And;
    if k == 0 {
      AndOnes(a, w);
    } else {
      AndMask(a / 2, w - 1, k - 1);
      AndEven(a, HighBits(w - 1, k - 1), w);
      Halve(a, Pow2(k - 1));
    }
  }

  // ----- Ranges -----

  datatype Cidr = Cidr(ip: IpAddr, prefixLen: nat)

  function Width(ip: IpAddr): nat { if ip.V4? then 32 else 128 }

  predicate IsCidr(c: Cidr) { IsIp(c.ip) && c.prefixLen <= Width(c.ip) }

  lemma SmallPowers()
    ensures Pow2(8) == 256
  {
    assert Pow2(2) == 4;
    assert Pow2(4) == 16;
    assert Pow2(6) == 64;
  }

  lemma Sizes()
    ensures Pow2(32) == V4_SIZE && Pow2(128) == V6_SIZE
  {
    hide Pow2;
    SmallPowers();
    Pow2Add(8, 8);
    Pow2Add(16, 16);
    Pow2Add(32, 32);
    Pow2Add(64, 64);
  }

  /** `contains`. */
  predicate Contains(c: Cidr, ip: IpAddr)
    requires IsCidr(c)
  {
    var candidate := Canonical(ip);
    match (c.ip, candidate)
    case (V4(_), V4(0)) => false
    case (V4(range), V4(bits)) =>
      And(range, Mask(32, c.prefixLen), 32) == And(bits, Mask(32, c.prefixLen), 32)
    case (V6(range), V6(bits)) =>
      And(range, Mask(128, c.prefixLen), 128) == And(bits, Mask(128, c.prefixLen), 128)
    case _ => false
  }

  /** How many addresses share a prefix. */
  function Block(c: Cidr): nat
    requires IsCidr(c)
  {
    Pow2(Width(c.ip) - c.prefixLen)
  }

  lemma MaskedEqual(a: nat, b: nat, w: nat, prefix: nat)
    requires a < Pow2(w) && b < Pow2(w) && prefix <= w
    ensures And(a, Mask(w, prefix), w) == And(b, Mask(w, prefix), w) <==> a / Pow2(w - prefix) == b / Pow2(w - prefix)
  {
    hide And, Mask, Pow2, HighBits;
    var k := w - prefix;
    MaskValue(w, prefix);
    AndMask(a, w, k);
    AndMask(b, w, k);
    var (p, q, m) := (a / Pow2(k), b / Pow2(k), Pow2(k));
    if p * m == q * m {
      Cancel(p, q, m);
    }
  }

  lemma CanonicalIsIp(ip: IpAddr)
    requires IsIp(ip)
    ensures IsIp(Canonical(ip))
  {
  }

  /** Section 3.1 of RFC 4632: membership is agreement after division by the block size, within one
      family, except that no IPv4 range contains 0.0.0.0. */
  lemma ContainsIff(c: Cidr, ip: IpAddr)
    requires IsCidr(c) && IsIp(ip)
    ensures var x := Canonical(ip);
      Contains(c, ip) <==> c.ip.V4? == x.V4? && x != V4(0) && c.ip.bits / Block(c) == x.bits / Block(c)
  {
    hide And, Mask, Pow2, Canonical;
    Sizes();
    CanonicalIsIp(ip);
    var x := Canonical(ip);
    if c.ip.V4? == x.V4? {
      MaskedEqual(c.ip.bits, x.bits, Width(c.ip), c.prefixLen);
    }
  }

  /** Equivalently, a range is an interval of `Block(c)` addresses starting at a multiple of that size. */
  lemma ContainsInterval(c: Cidr, ip: IpAddr)
    requires IsCidr(c) && IsIp(ip)
    ensures var x := Canonical(ip); var base := c.ip.bits / Block(c) * Block(c);
      Contains(c, ip) <==> c.ip.V4? == x.V4? && x != V4(0) && base <= x.bits < base + Block(c)
  {
    hide Contains, Pow2, Canonical;
    ContainsIff(c, ip);
    var (x, m) := (Canonical(ip), Block(c));
    DivMod(x.bits, m);
    var q := c.ip.bits / m;
    if q * m <= x.bits < q * m + m {
      DivUnique(x.bits, m, q, x.bits - q * m);
    }
  }

  /** Agreeing on a small block means agreeing on every larger one. */
  lemma CoarserAgrees(x: nat, y: nat, j: nat, k: nat)
    requires j <= k && x / Pow2(j) == y / Pow2(j)
    ensures x / Pow2(k) == y / Pow2(k)
  {
    Pow2Add(j, k - j);
    DivDiv(x, Pow2(j), Pow2(k - j));
    DivDiv(y, Pow2(j), Pow2(k - j));
  }

  /** Two ranges of one family are nested or disjoint: if they share an address, the one with the longer
      prefix lies inside the other. */
  lemma NestedOrDisjoint(a: Cidr, b: Cidr, shared: IpAddr, ip: IpAddr)
    requires IsCidr(a) && IsCidr(b) && IsIp(shared) && IsIp(ip) && a.prefixLen <= b.prefixLen
    requires Contains(a, shared) && Contains(b, shared)
    ensures Contains(b, ip) ==> Contains(a, ip)
  {
    hide Contains, Pow2, Canonical;
    ContainsIff(a, shared);
    ContainsIff(b, shared);
    ContainsIff(a, ip);
    ContainsIff(b, ip);
    if Contains(b, ip) {
      CoarserAgrees(Canonical(ip).bits, Canonical(shared).bits, Width(b.ip) - b.prefixLen, Width(a.ip) - a.prefixLen);
    }
  }
}
