/**
 * IPv4 addresses as 32-bit words, most significant octet first (the
 * dotted-decimal order and the network byte order), and CIDR masks.
 */
module Ipv4 {

  type Addr = bv32

  /** A prefix length of an IPv4 network, 0 to 32 bits (a __u32 in the LPM-trie key). */
  type PrefixLen = k: bv32 | k <= 32

  /** The address a.b.c.d. */
  function FromOctets(a: bv8, b: bv8, c: bv8, d: bv8): Addr
  {
    ((a as bv32) << 24) | ((b as bv32) << 16) | ((c as bv32) << 8) | (d as bv32)
  }

  /** Octet i (0 for the leftmost) of an address. */
  function OctetAt(x: Addr, i: nat): bv8
    requires i < 4
  {
    if i == 0 then ((x >> 24) & 0xFF) as bv8
    else if i == 1 then ((x >> 16) & 0xFF) as bv8
    else if i == 2 then ((x >> 8) & 0xFF) as bv8
    else (x & 0xFF) as bv8
  }

  /** Building an address from octets and reading them back are inverse, both ways. */
  lemma FromOctetsAt(a: bv8, b: bv8, c: bv8, d: bv8)
    ensures OctetAt(FromOctets(a, b, c, d), 0) == a
    ensures OctetAt(FromOctets(a, b, c, d), 1) == b
    ensures OctetAt(FromOctets(a, b, c, d), 2) == c
    ensures OctetAt(FromOctets(a, b, c, d), 3) == d
  {
  }

  lemma OctetsDetermineAddr(x: Addr)
    ensures FromOctets(OctetAt(x, 0), OctetAt(x, 1), OctetAt(x, 2), OctetAt(x, 3)) == x
  {
  }

  /**
   * The netmask with the k leading bits set, as Go's net.CIDRMask(k, 32)
   * builds it.
   */
  function CidrMask(k: PrefixLen): (m: Addr)
    ensures !m == 0xFFFF_FFFF >> k
  {
    if k == 0 then 0 else 0xFFFF_FFFF << (32 - k)
  }

  /** x and y agree on their k leading bits. */
  predicate SamePrefix(x: Addr, y: Addr, k: PrefixLen)
  {
    x & CidrMask(k) == y & CidrMask(k)
  }

  /** x and y have the same k most significant bits: what is left after shifting the other 32 - k out. */
  predicate LeadingBitsAgree(x: Addr, y: Addr, k: PrefixLen)
  {
    k == 0 || x >> (32 - k) == y >> (32 - k)
  }

  /** Masking with CidrMask(k) compares exactly the k leading bits. */
  lemma SamePrefixLeadingBits(x: Addr, y: Addr, k: PrefixLen)
    ensures SamePrefix(x, y, k) ==> LeadingBitsAgree(x, y, k)
  {
  }

  lemma LeadingBitsSamePrefix(x: Addr, y: Addr, k: PrefixLen)
    ensures LeadingBitsAgree(x, y, k) ==> SamePrefix(x, y, k)
  {
  }

  /** Some masks written out. */
  lemma CidrMaskValues()
    ensures CidrMask(32) == 0xFFFF_FFFF
    ensures CidrMask(24) == 0xFFFF_FF00
    ensures CidrMask(0) == 0
  {
  }

  /** A /32 prefix identifies one address. */
  lemma SamePrefixFull(x: Addr, y: Addr)
    ensures SamePrefix(x, y, 32) ==> x == y
    ensures x == y ==> SamePrefix(x, y, 32)
  {
  }

  /** The /32 mask keeps the whole address. */
  lemma MaskFull(x: Addr)
    ensures x & CidrMask(32) == x
  {
  }

  /** Masking twice is masking once. */
  lemma MaskTwice(x: Addr, k: PrefixLen)
    ensures (x & CidrMask(k)) & CidrMask(k) == x & CidrMask(k)
  {
    var m := CidrMask(k);
    assert (x & m) & m == x & m;
  }

  /** A masked address has the same prefix as the original. */
  lemma MaskedSamePrefix(x: Addr, k: PrefixLen)
    ensures SamePrefix(x & CidrMask(k), x, k)
  {
  }
}
