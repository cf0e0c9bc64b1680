/**
 * The XDP program `iptable`: a per-frame verdict from the frame's length,
 * its ethertype and its IPv4 source address, looked up in the `blacklist`
 * LPM-trie map. The map is a value here, a set of (prefix length, address)
 * keys, with the lookup and insert semantics of a BPF_MAP_TYPE_LPM_TRIE map.
 */
module Xdp {

  import opened Wrappers
  import opened Ipv4

  /** The verdicts the program returns (XDP_ABORTED, XDP_DROP, XDP_PASS). */
  datatype XdpAction = Aborted | Drop | Pass

  /** sizeof(struct ethhdr): two MAC addresses and the ethertype. */
  const EthHeaderLen := 14

  /** sizeof(struct iphdr): the IPv4 header without options. */
  const IpHeaderLen := 20

  /** ETH_P_IP, compared against the ethertype as it stands in the frame (network order). */
  const EthPIp: bv16 := 0x0800

  /** The `blacklist` map's max_entries. */
  const MaxEntries := 16

  /** A key of the LPM trie: a prefix length and the address bits (network order). */
  datatype LpmKey = LpmKey(prefixlen: PrefixLen, addr: Addr)

  /** h_proto, bytes 12 and 13 of the Ethernet header, read as a big-endian value. */
  function EtherType(frame: seq<bv8>): (t: bv16)
    requires |frame| >= EthHeaderLen
    ensures t >> 8 == frame[12] as bv16 && t & 0xFF == frame[13] as bv16
  {
    ((frame[12] as bv16) << 8) | (frame[13] as bv16)
  }

  /** saddr, bytes 12 to 15 of the IPv4 header that follows the Ethernet header. */
  function SourceAddr(frame: seq<bv8>): (a: Addr)
    requires |frame| >= EthHeaderLen + IpHeaderLen
    ensures forall i :: 0 <= i < 4 ==> OctetAt(a, i) == frame[26 + i]
  {
    FromOctetsAt(frame[26], frame[27], frame[28], frame[29]);
    FromOctets(frame[26], frame[27], frame[28], frame[29])
  }

  /** An entry covers an address when they agree on the entry's prefix. */
  predicate Covers(e: LpmKey, a: Addr)
  {
    SamePrefix(e.addr, a, e.prefixlen)
  }

  /** An entry covers exactly the addresses whose leading prefixlen bits are the entry's. */
  lemma CoversLeadingBits(e: LpmKey, a: Addr)
    ensures Covers(e, a) ==> LeadingBitsAgree(e.addr, a, e.prefixlen)
    ensures LeadingBitsAgree(e.addr, a, e.prefixlen) ==> Covers(e, a)
  {
    SamePrefixLeadingBits(e.addr, a, e.prefixlen);
    LeadingBitsSamePrefix(e.addr, a, e.prefixlen);
  }

  /** Some entry of the trie covers the address. */
  ghost predicate Blacklisted(trie: set<LpmKey>, a: Addr)
  {
    exists e :: e in trie && Covers(e, a)
  }

  /** Some entry of exactly len bits covers a. */
  predicate HasEntryOfLength(trie: set<LpmKey>, a: Addr, len: PrefixLen)
  {
    exists e :: e in trie && e.prefixlen == len && Covers(e, a)
  }

  /**
   * The lookup of a key (len, a): the length of the longest entry of at most
   * len bits that covers a, or None when no such entry exists.
   */
  function LongestMatch(trie: set<LpmKey>, a: Addr, len: PrefixLen): (r: Option<PrefixLen>)
    ensures r.Some? ==> r.value <= len && exists e :: e in trie && e.prefixlen == r.value && Covers(e, a)
    ensures r.Some? ==> forall e :: e in trie && e.prefixlen <= len && Covers(e, a) ==> e.prefixlen <= r.value
    ensures r.None? ==> forall e :: e in trie && e.prefixlen <= len ==> !Covers(e, a)
    decreases len as int
  {
    if HasEntryOfLength(trie, a, len) then Some(len)
    else if len == 0 then None
    else
      PrefixLenStep(trie, len);
      LongestMatch(trie, a, len - 1)
  }

  /** Below a nonzero length, an entry's length is that length or at most one less. */
  lemma PrefixLenStep(trie: set<LpmKey>, len: PrefixLen)
    requires len > 0
    ensures forall e :: e in trie && e.prefixlen <= len ==> e.prefixlen == len || e.prefixlen <= len - 1
  {
  }

  /** The frame is long enough for both headers and its ethertype is IPv4. */
  predicate WellFormedIpv4(frame: seq<bv8>)
  {
    |frame| >= EthHeaderLen + IpHeaderLen && EtherType(frame) == EthPIp
  }

  /** The program's verdict on one frame, the bytes between data and data_end. */
  function Verdict(frame: seq<bv8>, trie: set<LpmKey>): (v: XdpAction)
    ensures v == Aborted ==> |frame| < EthHeaderLen + IpHeaderLen
    ensures v == Drop ==> WellFormedIpv4(frame)
  {
    if |frame| < EthHeaderLen then Aborted
    else if EtherType(frame) != EthPIp then Pass
    else if |frame| < EthHeaderLen + IpHeaderLen then Aborted
    else if LongestMatch(trie, SourceAddr(frame), 32).Some? then Drop
    else Pass
  }

  // ---------------------------------------------------------------------
  // The verdict
  // ---------------------------------------------------------------------

  /** A frame shorter than an Ethernet header is aborted. */
  lemma RuntFrameAborted(frame: seq<bv8>, trie: set<LpmKey>)
    requires |frame| < EthHeaderLen
    ensures Verdict(frame, trie) == Aborted
  {
  }

  /** A frame that is not IPv4 passes, whatever the blacklist holds. */
  lemma NonIpv4Passes(frame: seq<bv8>, trie: set<LpmKey>)
    requires |frame| >= EthHeaderLen && EtherType(frame) != EthPIp
    ensures Verdict(frame, trie) == Pass
  {
  }

  /** An IPv4 frame too short for the IPv4 header is aborted. */
  lemma TruncatedIpv4Aborted(frame: seq<bv8>, trie: set<LpmKey>)
    requires EthHeaderLen <= |frame| < EthHeaderLen + IpHeaderLen && EtherType(frame) == EthPIp
    ensures Verdict(frame, trie) == Aborted
  {
  }

  /** A well-formed IPv4 frame is dropped iff some blacklist entry covers its source. */
  lemma DropIffBlacklisted(frame: seq<bv8>, trie: set<LpmKey>)
    requires WellFormedIpv4(frame)
    ensures Verdict(frame, trie) == Drop <==> Blacklisted(trie, SourceAddr(frame))
    ensures Verdict(frame, trie) == Pass <==> !Blacklisted(trie, SourceAddr(frame))
  {
    if Blacklisted(trie, SourceAddr(frame)) {
      var e :| e in trie && Covers(e, SourceAddr(frame));
      assert e.prefixlen <= 32;
    }
  }

  /** A dropped frame is a well-formed IPv4 frame from a blacklisted source. */
  lemma DropOnlyForBlacklisted(frame: seq<bv8>, trie: set<LpmKey>)
    requires Verdict(frame, trie) == Drop
    ensures WellFormedIpv4(frame) && Blacklisted(trie, SourceAddr(frame))
  {
    DropIffBlacklisted(frame, trie);
  }

  /**
   * The verdict reads nothing but the frame's length, its ethertype and its
   * source address: the destination address and the protocol never matter.
   */
  lemma VerdictReadsOnlyHeaderFields(f: seq<bv8>, g: seq<bv8>, trie: set<LpmKey>)
    requires |f| == |g|
    requires |f| >= EthHeaderLen ==> f[12..14] == g[12..14]
    requires |f| >= EthHeaderLen + IpHeaderLen ==> f[26..30] == g[26..30]
    ensures Verdict(f, trie) == Verdict(g, trie)
  {
    if |f| >= EthHeaderLen {
      assert f[12] == f[12..14][0] && f[13] == f[12..14][1];
      assert g[12] == g[12..14][0] && g[13] == g[12..14][1];
    }
    if |f| >= EthHeaderLen + IpHeaderLen {
      assert forall i :: 26 <= i < 30 ==> f[i] == f[26..30][i - 26] && g[i] == g[26..30][i - 26];
    }
  }

  // ---------------------------------------------------------------------
  // Inserting into the trie
  // ---------------------------------------------------------------------

  /** Why an insert fails: a key the library cannot build, or a full map. */
  datatype MapError = InvalidKey | NoSpace

  /** The trie identifies a key by its prefix bits only. */
  function Canonical(k: LpmKey): LpmKey
  {
    LpmKey(k.prefixlen, k.addr & CidrMask(k.prefixlen))
  }

  /** Canonicalising twice is canonicalising once. */
  lemma CanonicalIdempotent(k: LpmKey)
    ensures Canonical(Canonical(k)) == Canonical(k)
  {
    var m := CidrMask(k.prefixlen);
    assert (k.addr & m) & m == k.addr & m;
  }

  /** A new key does not fit into a map that already holds max_entries keys. */
  predicate InsertFails(trie: set<LpmKey>, key: LpmKey)
  {
    Canonical(key) !in trie && |trie| >= MaxEntries
  }

  /** The trie after inserting key: unchanged when the insert fails or the key is present. */
  function AfterInsert(trie: set<LpmKey>, key: LpmKey): (r: set<LpmKey>)
    ensures trie <= r <= trie + {Canonical(key)}
    ensures !InsertFails(trie, key) ==> Canonical(key) in r
  {
    if InsertFails(trie, key) then trie else trie + {Canonical(key)}
  }

  /** A key and its canonical form cover the same addresses. */
  lemma CanonicalCovers(k: LpmKey, a: Addr)
    ensures Covers(Canonical(k), a) ==> Covers(k, a)
    ensures Covers(k, a) ==> Covers(Canonical(k), a)
  {
    MaskedSamePrefix(k.addr, k.prefixlen);
  }

  /** An insert never takes the map past max_entries. */
  lemma InsertKeepsBound(trie: set<LpmKey>, key: LpmKey)
    requires |trie| <= MaxEntries
    ensures |AfterInsert(trie, key)| <= MaxEntries
  {
  }

  /** Inserting the same key twice leaves the trie as one insert does. */
  lemma InsertIdempotent(trie: set<LpmKey>, key: LpmKey)
    ensures AfterInsert(AfterInsert(trie, key), key) == AfterInsert(trie, key)
  {
  }

  /** After a successful insert every address the key covers is blacklisted. */
  lemma InsertBlacklistsKey(trie: set<LpmKey>, key: LpmKey, a: Addr)
    requires !InsertFails(trie, key) && Covers(key, a)
    ensures Blacklisted(AfterInsert(trie, key), a)
  {
    CanonicalCovers(key, a);
    assert Canonical(key) in AfterInsert(trie, key);
  }

  /** An insert blacklists nothing beyond what the trie and the key cover, and removes nothing. */
  lemma InsertChangesOnlyKey(trie: set<LpmKey>, key: LpmKey, a: Addr)
    ensures Blacklisted(trie, a) ==> Blacklisted(AfterInsert(trie, key), a)
    ensures Blacklisted(AfterInsert(trie, key), a) ==> Blacklisted(trie, a) || Covers(key, a)
  {
    if Blacklisted(AfterInsert(trie, key), a) && !Blacklisted(trie, a) {
      var e :| e in AfterInsert(trie, key) && Covers(e, a);
      assert e == Canonical(key);
      CanonicalCovers(key, a);
    }
  }
}
