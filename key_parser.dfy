/**
 * Construction of an LPM-trie key from the text the operator typed after
 * `add`, as the eBPF library does it for the control program: an IPv4
 * literal "a.b.c.d" becomes the /32 key, "a.b.c.d/n" the /n key with the
 * host bits cleared, and anything else no key at all. The library's source
 * is not part of this model; the parsing rules are those of Go's IPv4 and
 * CIDR parsers for the IPv4 case.
 */
module KeyParser {

  import opened Wrappers
  import opened Ipv4
  import opened Text
  import opened Xdp

  /** One dotted-decimal field: one to three digits, no leading zero, at most 255. */
  function ParseOctet(s: string): Option<bv8>
  {
    if 1 <= |s| <= 3 && AllDigits(s) && (|s| == 1 || s[0] != '0') && DecimalValue(s) <= 255
    then Some(DecimalValue(s) as bv8)
    else None
  }

  /** An IPv4 literal: exactly four fields separated by dots. */
  function ParseDotted(s: string): (r: Option<Addr>)
    ensures r.Some? <==> |Split(s, '.')| == 4 && forall i :: 0 <= i < 4 ==> ParseOctet(Split(s, '.')[i]).Some?
    ensures r.Some? ==> forall i :: 0 <= i < 4 ==> OctetAt(r.value, i) == ParseOctet(Split(s, '.')[i]).value
  {
    var fields := Split(s, '.');
    if |fields| != 4 then None else ParseFields(fields)
  }

  /** Four fields that each parse as an octet make the address of those octets. */
  function ParseFields(fields: seq<string>): (r: Option<Addr>)
    requires |fields| == 4
    ensures r.Some? <==> forall i :: 0 <= i < 4 ==> ParseOctet(fields[i]).Some?
    ensures r.Some? ==> forall i :: 0 <= i < 4 ==> OctetAt(r.value, i) == ParseOctet(fields[i]).value
  {
    match (ParseOctet(fields[0]), ParseOctet(fields[1]), ParseOctet(fields[2]), ParseOctet(fields[3]))
    case (Some(a), Some(b), Some(c), Some(d)) => FromOctetsAt(a, b, c, d); Some(FromOctets(a, b, c, d))
    case _ => None
  }

  /** A prefix length: one or more decimal digits whose value is at most 32. */
  function ParsePrefixLen(s: string): Option<PrefixLen>
  {
    if 1 <= |s| && AllDigits(s) && DecimalValue(s) <= 32 then Some(DecimalValue(s) as bv32) else None
  }

  /** The position of the first occurrence of c in s. */
  function IndexOf(s: string, c: char): (i: nat)
    requires c in s
    ensures i < |s| && s[i] == c && c !in s[..i]
  {
    if s[0] == c then 0
    else
      assert c in s[1..] by { var j :| 0 <= j < |s| && s[j] == c; assert s[1..][j - 1] == c; }
      var i := 1 + IndexOf(s[1..], c);
      assert s[..i] == [s[0]] + s[1..][..i - 1];
      i
  }

  /** net.ParseCIDR for IPv4: the address before the first '/', the length after it, host bits cleared. */
  function ParseCidr(s: string): (r: Option<LpmKey>)
    ensures r.Some? <==> '/' in s && ParseDotted(s[..IndexOf(s, '/')]).Some? && ParsePrefixLen(s[IndexOf(s, '/') + 1..]).Some?
    ensures r.Some? ==> ParsePrefixLen(s[IndexOf(s, '/') + 1..]) == Some(r.value.prefixlen)
    ensures r.Some? ==> SamePrefix(r.value.addr, ParseDotted(s[..IndexOf(s, '/')]).value, r.value.prefixlen)
    ensures r.Some? ==> r.value.addr & CidrMask(r.value.prefixlen) == r.value.addr
  {
    if '/' !in s then None
    else
      var i := IndexOf(s, '/');
      match (ParseDotted(s[..i]), ParsePrefixLen(s[i + 1..]))
      case (Some(a), Some(k)) => MaskedSamePrefix(a, k); MaskTwice(a, k); Some(LpmKey(k, a & CidrMask(k)))
      case _ => None
  }

  /**
   * goebpf.CreateLPMtrieKey restricted to IPv4: a CIDR is parsed as given, an
   * address as a /32; a text with ':' is an IPv6 literal, which the
   * `blacklist` map's 8-byte key cannot hold, so it yields no key.
   */
  function CreateLpmTrieKey(s: string): Option<LpmKey>
  {
    if '/' in s then ParseCidr(s)
    else if ':' in s then None
    else ParseCidr(s + "/32")
  }

  /** The dotted-decimal spelling of an address. */
  function FormatDotted(a: Addr): string
  {
    Join(OctetFields(a), '.')
  }

  /** The decimal spellings of an address's four octets. */
  function OctetFields(a: Addr): (fields: seq<string>)
    ensures |fields| == 4
  {
    DecimalFields(OctetAt(a, 0) as int, OctetAt(a, 1) as int, OctetAt(a, 2) as int, OctetAt(a, 3) as int)
  }

  function DecimalFields(w: nat, x: nat, y: nat, z: nat): (fields: seq<string>)
    ensures |fields| == 4
  {
    [DecimalString(w), DecimalString(x), DecimalString(y), DecimalString(z)]
  }

  // ---------------------------------------------------------------------
  // Properties
  // ---------------------------------------------------------------------

  /** Every key the construction yields is in the trie's canonical form. */
  lemma CreatedKeysCanonical(s: string)
    requires CreateLpmTrieKey(s).Some?
    ensures Canonical(CreateLpmTrieKey(s).value) == CreateLpmTrieKey(s).value
  {
    if '/' in s {
      ParsedKeyCanonical(s);
    } else {
      ParsedKeyCanonical(s + "/32");
    }
  }

  lemma ParsedKeyCanonical(t: string)
    requires ParseCidr(t).Some?
    ensures Canonical(ParseCidr(t).value) == ParseCidr(t).value
  {
  }

  /** The decimal spelling of an octet parses back to it. */
  lemma OctetRoundTrip(o: bv8)
    ensures ParseOctet(DecimalString(o as int)) == Some(o)
    ensures '.' !in DecimalString(o as int) && '/' !in DecimalString(o as int)
    ensures ':' !in DecimalString(o as int)
  {
    DecimalRoundTrip(o as int);
    DecimalStringLength(o as int);
  }

  /** The spellings of four octets parse back to the address of those octets. */
  lemma FieldsRoundTrip(o0: bv8, o1: bv8, o2: bv8, o3: bv8)
    ensures ParseFields([DecimalString(o0 as int), DecimalString(o1 as int),
                         DecimalString(o2 as int), DecimalString(o3 as int)])
            == Some(FromOctets(o0, o1, o2, o3))
  {
    OctetRoundTrip(o0);
    OctetRoundTrip(o1);
    OctetRoundTrip(o2);
    OctetRoundTrip(o3);
  }

  /** The dotted-decimal spelling of an address parses back to it. */
  lemma DottedRoundTrip(a: Addr)
    ensures ParseDotted(FormatDotted(a)) == Some(a)
  {
    DottedSplits(a);
    OctetFieldsParse(a);
  }

  /** Splitting a dotted-decimal spelling at its dots gives back the four fields. */
  lemma DottedSplits(a: Addr)
    ensures Split(FormatDotted(a), '.') == OctetFields(a)
  {
    var fields := OctetFields(a);
    forall i | 0 <= i < 4 ensures '.' !in fields[i] {
      OctetRoundTrip(OctetAt(a, i));
    }
    SplitJoin(fields, '.');
  }

  /** The four fields of an address parse back to that address. */
  lemma OctetFieldsParse(a: Addr)
    ensures ParseFields(OctetFields(a)) == Some(a)
  {
    FieldsRoundTrip(OctetAt(a, 0), OctetAt(a, 1), OctetAt(a, 2), OctetAt(a, 3));
    OctetsDetermineAddr(a);
  }

  /**
   * The dotted-decimal spelling holds no '/', ':' or blank, and ends in a
   * digit.
   */
  lemma FormatDottedShape(a: Addr)
    ensures '/' !in FormatDotted(a) && ':' !in FormatDotted(a) && ' ' !in FormatDotted(a)
    ensures |FormatDotted(a)| > 0 && IsDigit(FormatDotted(a)[|FormatDotted(a)| - 1])
  {
    JoinedFieldsShape(OctetAt(a, 0) as int, OctetAt(a, 1) as int, OctetAt(a, 2) as int, OctetAt(a, 3) as int);
  }

  lemma JoinedFieldsShape(w: nat, x: nat, y: nat, z: nat)
    ensures var s := Join(DecimalFields(w, x, y, z), '.');
      && '/' !in s && ':' !in s && ' ' !in s
      && |s| > 0 && IsDigit(s[|s| - 1])
  {
    DecimalRoundTrip(w);
    DecimalRoundTrip(x);
    DecimalRoundTrip(y);
    DecimalRoundTrip(z);
    JoinDigitsShape(DecimalFields(w, x, y, z));
  }

  /** Dot-joined digit strings hold no '/', ':' or blank and end in a digit. */
  lemma JoinDigitsShape(parts: seq<string>)
    requires |parts| >= 1
    requires forall i :: 0 <= i < |parts| ==> |parts[i]| >= 1 && AllDigits(parts[i])
    ensures var s := Join(parts, '.');
      && '/' !in s && ':' !in s && ' ' !in s
      && |s| > 0 && IsDigit(s[|s| - 1])
  {
    forall i | 0 <= i < |parts|
      ensures '/' !in parts[i] && ':' !in parts[i] && ' ' !in parts[i]
    {
      DigitsAvoid(parts[i]);
    }
    JoinAvoids(parts, '.', '/');
    JoinAvoids(parts, '.', ':');
    JoinAvoids(parts, '.', ' ');
    JoinEndsWithLastPiece(parts, '.');
  }

  lemma DigitsAvoid(s: string)
    requires AllDigits(s)
    ensures '/' !in s && ':' !in s && ' ' !in s
  {
  }

  /** A join ends with the last character of its last piece. */
  lemma {:induction false} JoinEndsWithLastPiece(parts: seq<string>, sep: char)
    requires |parts| >= 1 && |parts[|parts| - 1]| > 0
    ensures |Join(parts, sep)| > 0
    ensures Join(parts, sep)[|Join(parts, sep)| - 1] == parts[|parts| - 1][|parts[|parts| - 1]| - 1]
    decreases |parts|
  {
    if |parts| > 1 {
      JoinEndsWithLastPiece(parts[1..], sep);
    }
  }

  /** Joining pieces without c, with a separator other than c, gives a string without c. */
  lemma {:induction false} JoinAvoids(parts: seq<string>, sep: char, c: char)
    requires sep != c && forall i :: 0 <= i < |parts| ==> c !in parts[i]
    ensures c !in Join(parts, sep)
    decreases |parts|
  {
    if |parts| > 1 {
      JoinAvoids(parts[1..], sep, c);
    }
  }

  /** A text without '/' followed by "/n" splits at that '/'. */
  lemma ParseCidrAt(t: string, rest: string)
    requires '/' !in t
    ensures ParseCidr(t + "/" + rest) ==
      match (ParseDotted(t), ParsePrefixLen(rest))
      case (Some(a), Some(k)) => Some(LpmKey(k, a & CidrMask(k)))
      case _ => None
  {
    var s := t + "/" + rest;
    assert s[|t|] == '/';
    var i := IndexOf(s, '/');
    assert s[..i] == t[..i] || i == |t|;
    assert i == |t|;
    assert s[..i] == t;
    assert s[i + 1..] == rest;
  }

  lemma PrefixLen32()
    ensures ParsePrefixLen("32") == Some(32)
  {
    assert "32"[..1] == "3";
    assert "3"[..0] == "";
  }

  /** A plain dotted text that parses to a becomes the /32 key of a. */
  lemma PlainAddressKey(t: string, a: Addr)
    requires '/' !in t && ':' !in t && ParseDotted(t) == Some(a)
    ensures CreateLpmTrieKey(t) == Some(LpmKey(32, a))
  {
    assert t + "/32" == t + "/" + "32";
    ParseCidrAt(t, "32");
    PrefixLen32();
    MaskFull(a);
  }

  /** An address typed as "a.b.c.d" becomes the /32 key for exactly that address. */
  lemma HostAddressKey(a: Addr)
    ensures CreateLpmTrieKey(FormatDotted(a)) == Some(LpmKey(32, a))
  {
    FormatDottedShape(a);
    DottedRoundTrip(a);
    PlainAddressKey(FormatDotted(a), a);
  }

  /** The decimal spelling of a prefix length parses back to it. */
  lemma PrefixLenRoundTrip(k: PrefixLen)
    ensures ParsePrefixLen(DecimalString(k as int)) == Some(k)
  {
    DecimalRoundTrip(k as int);
  }

  /** A dotted text, a '/' and a prefix length become the key of that network. */
  lemma CidrTextKey(t: string, n: string, a: Addr, k: PrefixLen)
    requires '/' !in t && ParseDotted(t) == Some(a) && ParsePrefixLen(n) == Some(k)
    ensures CreateLpmTrieKey(t + "/" + n) == Some(LpmKey(k, a & CidrMask(k)))
  {
    ParseCidrAt(t, n);
    assert (t + "/" + n)[|t|] == '/';
  }

  /** "a.b.c.d/k" becomes the /k key of a.b.c.d with the host bits cleared. */
  lemma CidrAddressKey(a: Addr, k: PrefixLen)
    ensures CreateLpmTrieKey(FormatDotted(a) + "/" + DecimalString(k as int)) == Some(LpmKey(k, a & CidrMask(k)))
  {
    FormatDottedShape(a);
    DottedRoundTrip(a);
    PrefixLenRoundTrip(k);
    CidrTextKey(FormatDotted(a), DecimalString(k as int), a, k);
  }

  /** An empty token, as `add` followed by two spaces produces, yields no key. */
  lemma EmptyTokenHasNoKey()
    ensures CreateLpmTrieKey("") == None
  {
    assert ParseDotted("") == None;
  }
}
