/**
 * The control program: each line read from standard input is right-trimmed,
 * split on single spaces, and when its first token is `add` the second
 * token is turned into an LPM-trie key and inserted into the `blacklist`
 * map shared with the XDP program. Every other line is ignored.
 */
module Control {

  import opened Wrappers
  import opened Ipv4
  import opened Text
  import opened Xdp
  import opened KeyParser

  /** The cutset the reader applies to every line. */
  const LineCutset: set<char> := {' ', '\t', '\r', '\n'}

  /** The message the reader goroutine sends for a line it read. */
  function ReceivedLine(raw: string): (r: string)
    ensures |r| <= |raw| && r == raw[..|r|]
    ensures forall i :: |r| <= i < |raw| ==> raw[i] in LineCutset
    ensures |r| == 0 || r[|r| - 1] !in LineCutset
  {
    TrimRight(raw, LineCutset)
  }

  /**
   * What a message asks for: an insert of the token after `add`, an `add`
   * with no token after it (which indexes past the end of the split result
   * and panics), or nothing.
   */
  datatype Command = Add(address: string) | AddWithoutAddress | Ignored(verb: string)

  /** The dispatch on the first token of strings.Split(s, " "). */
  function Decode(s: string): Command
  {
    var tokens := Split(s, ' ');
    if tokens[0] != "add" then Ignored(tokens[0])
    else if |tokens| < 2 then AddWithoutAddress
    else Add(tokens[1])
  }

  /** The error AddIPAddress returns: no key for the text, or the map's own insert error. */
  function AddError(trie: set<LpmKey>, ipAddress: string): Option<MapError>
  {
    match CreateLpmTrieKey(ipAddress)
    case None => Some(InvalidKey)
    case Some(key) => if InsertFails(trie, key) then Some(NoSpace) else None
  }

  /** The blacklist after AddIPAddress. */
  function AfterAdd(trie: set<LpmKey>, ipAddress: string): set<LpmKey>
  {
    match CreateLpmTrieKey(ipAddress)
    case None => trie
    case Some(key) => AfterInsert(trie, key)
  }

  /** The blacklist after dispatching a command that does not panic. */
  function ApplyCommand(trie: set<LpmKey>, c: Command): set<LpmKey>
  {
    match c
    case Add(address) => AfterAdd(trie, address)
    case _ => trie
  }

  /** The blacklist after the main loop has handled the lines in order, up to the first panic. */
  function Replay(trie: set<LpmKey>, lines: seq<string>): set<LpmKey>
    decreases |lines|
  {
    if |lines| == 0 then trie
    else
      var c := Decode(ReceivedLine(lines[0]));
      if c.AddWithoutAddress? then trie else Replay(ApplyCommand(trie, c), lines[1..])
  }

  /** The `blacklist` map as the control program sees it: a bounded set of trie keys. */
  class Blacklist {

    var entries: set<LpmKey>

    ghost predicate Valid()
      reads this
    {
      |entries| <= MaxEntries && forall e :: e in entries ==> Canonical(e) == e
    }

    constructor ()
      ensures Valid() && entries == {}
    {
      entries := {};
    }

    /** Map.Insert of key with value 0. */
    method Insert(key: LpmKey) returns (err: Option<MapError>)
      requires Valid()
      modifies this
      ensures Valid()
      ensures entries == AfterInsert(old(entries), key)
      ensures err == (if InsertFails(old(entries), key) then Some(NoSpace) else None)
    {
      var k := Canonical(key);
      if k !in entries && |entries| >= MaxEntries {
        err := Some(NoSpace);
      } else {
        CanonicalIdempotent(key);
        entries := entries + {k};
        err := None;
      }
    }
  }

  /** AddIPAddress: build the key and insert it, returning the insert's error unchanged. */
  method AddIPAddress(blacklist: Blacklist, ipAddress: string) returns (err: Option<MapError>)
    requires blacklist.Valid()
    modifies blacklist
    ensures blacklist.Valid()
    ensures blacklist.entries == AfterAdd(old(blacklist.entries), ipAddress)
    ensures err == AddError(old(blacklist.entries), ipAddress)
  {
    var key := CreateLpmTrieKey(ipAddress);
    if key.None? {
      return Some(InvalidKey);
    }
    err := blacklist.Insert(key.value);
  }

  /**
   * One message of the main loop. The error of AddIPAddress is discarded;
   * `add` alone panics, which ends the program.
   */
  method Dispatch(blacklist: Blacklist, s: string) returns (panicked: bool)
    requires blacklist.Valid()
    modifies blacklist
    ensures blacklist.Valid()
    ensures panicked == Decode(s).AddWithoutAddress?
    ensures blacklist.entries == ApplyCommand(old(blacklist.entries), Decode(s))
  {
    var tokens := Split(s, ' ');
    var action := tokens[0];
    panicked := false;
    if action == "add" {
      if |tokens| < 2 {
        return true;
      }
      var ip := tokens[1];
      var _ := AddIPAddress(blacklist, ip);
    }
  }

  /**
   * The main loop over the lines the reader delivers, in order: each is
   * trimmed and dispatched, until a line panics or the lines run out.
   */
  method Serve(blacklist: Blacklist, lines: seq<string>) returns (handled: nat, panicked: bool)
    requires blacklist.Valid()
    modifies blacklist
    ensures blacklist.Valid()
    ensures blacklist.entries == Replay(old(blacklist.entries), lines)
    ensures handled <= |lines|
    ensures forall j :: 0 <= j < handled ==> !Decode(ReceivedLine(lines[j])).AddWithoutAddress?
    ensures panicked ==> handled < |lines| && Decode(ReceivedLine(lines[handled])).AddWithoutAddress?
    ensures !panicked ==> handled == |lines|
  {
    handled := 0;
    while handled < |lines|
      invariant handled <= |lines|
      invariant blacklist.Valid()
      invariant Replay(old(blacklist.entries), lines) == Replay(blacklist.entries, lines[handled..])
      invariant forall j :: 0 <= j < handled ==> !Decode(ReceivedLine(lines[j])).AddWithoutAddress?
    {
      assert lines[handled..][0] == lines[handled];
      assert lines[handled..][1..] == lines[handled + 1..];
      panicked := Dispatch(blacklist, ReceivedLine(lines[handled]));
      if panicked {
        return;
      }
      handled := handled + 1;
    }
    panicked := false;
  }

  // ---------------------------------------------------------------------
  // Decoding a line
  // ---------------------------------------------------------------------

  /** Only trailing blanks go; a line with leading blanks keeps them. */
  lemma ReceivedLineKeepsLeading(raw: string, j: int)
    requires 0 <= j < |raw| && raw[j] !in LineCutset
    ensures ReceivedLine(raw)[..j + 1] == raw[..j + 1]
  {
    TrimRightKeepsLeading(raw, LineCutset, j);
  }

  /** A line ending in blanks, tabs, CRs and LFs is received without them. */
  lemma ReceivedLineDropsBlanks(s: string, b: string)
    requires |s| > 0 && s[|s| - 1] !in LineCutset
    requires forall i :: 0 <= i < |b| ==> b[i] in LineCutset
    ensures ReceivedLine(s + b) == s
  {
    var r := ReceivedLine(s + b);
    assert (s + b)[|s| - 1] !in LineCutset;
    assert |r| >= |s|;
    assert forall i :: |s| <= i < |s + b| ==> (s + b)[i] == b[i - |s|];
    assert r == (s + b)[..|s|] == s;
  }

  /** A line ending in a newline is received without it. */
  lemma ReceivedLineDropsNewline(s: string)
    requires |s| > 0 && s[|s| - 1] !in LineCutset
    ensures ReceivedLine(s + "\n") == s
  {
    ReceivedLineDropsBlanks(s, "\n");
  }
  /** `add` followed by a space: the address is the next token, and further tokens are ignored. */
  lemma {:induction false} DecodeAdd(rest: string)
    ensures Decode("add " + rest) == Add(Split(rest, ' ')[0])
  {
    SplitAfterPiece("add", ' ', rest);
    assert "add " + rest == "add" + [' '] + rest;
  }

  /** With two spaces after `add` the address token is empty. */
  lemma DecodeDoubleSpace(rest: string)
    ensures Decode("add  " + rest) == Add("")
  {
    DecodeAdd(" " + rest);
    assert "add  " + rest == "add " + (" " + rest);
    assert Split(" " + rest, ' ') == [""] + Split(rest, ' ');
  }

  /** `add` with nothing after it, even with trailing blanks that trimming removes, panics. */
  lemma DecodeBareAdd(b: string)
    requires forall i :: 0 <= i < |b| ==> b[i] in LineCutset
    ensures Decode("add") == AddWithoutAddress
    ensures Decode(ReceivedLine("add" + b)) == AddWithoutAddress
  {
    SplitWithoutSeparator("add", ' ');
    ReceivedLineDropsBlanks("add", b);
  }

  /** Only the message `add` itself panics. */
  lemma BareAddIsExactlyAdd(s: string)
    requires Decode(s) == AddWithoutAddress
    ensures s == "add"
  {
    JoinSplit(s, ' ');
  }
  /** A leading blank makes the verb empty, so the line is ignored. */
  lemma LeadingBlankIgnored(rest: string)
    ensures Decode(" " + rest) == Ignored("")
  {
    assert (" " + rest)[0] == ' ' && (" " + rest)[1..] == rest;
  }

  /** Every verb other than `add` is ignored and changes nothing. */
  lemma OnlyAddChangesBlacklist(trie: set<LpmKey>, s: string)
    requires Split(s, ' ')[0] != "add"
    ensures Decode(s) == Ignored(Split(s, ' ')[0])
    ensures ApplyCommand(trie, Decode(s)) == trie
  {
  }

  /** An `add` whose insert fails leaves the blacklist as it was. */
  lemma FailedAddChangesNothing(trie: set<LpmKey>, ipAddress: string)
    requires AddError(trie, ipAddress).Some?
    ensures AfterAdd(trie, ipAddress) == trie
  {
  }

  // ---------------------------------------------------------------------
  // The blacklist over a run of lines
  // ---------------------------------------------------------------------

  /** However many lines are handled, the blacklist stays within max_entries. */
  lemma {:induction false} ReplayKeepsBound(trie: set<LpmKey>, lines: seq<string>)
    requires |trie| <= MaxEntries
    ensures |Replay(trie, lines)| <= MaxEntries
    decreases |lines|
  {
    if |lines| > 0 {
      var c := Decode(ReceivedLine(lines[0]));
      if !c.AddWithoutAddress? {
        if c.Add? && CreateLpmTrieKey(c.address).Some? {
          InsertKeepsBound(trie, CreateLpmTrieKey(c.address).value);
        }
        ReplayKeepsBound(ApplyCommand(trie, c), lines[1..]);
      }
    }
  }

  /** Entries are never removed: an address blacklisted before stays blacklisted. */
  lemma {:induction false} ReplayKeepsBlacklisted(trie: set<LpmKey>, lines: seq<string>, a: Addr)
    requires Blacklisted(trie, a)
    ensures Blacklisted(Replay(trie, lines), a)
    decreases |lines|
  {
    if |lines| > 0 {
      var c := Decode(ReceivedLine(lines[0]));
      if !c.AddWithoutAddress? {
        if c.Add? && CreateLpmTrieKey(c.address).Some? {
          InsertChangesOnlyKey(trie, CreateLpmTrieKey(c.address).value, a);
        }
        ReplayKeepsBlacklisted(ApplyCommand(trie, c), lines[1..], a);
      }
    }
  }

  /** Handling the same `add` line twice leaves the blacklist as handling it once. */
  lemma AddTwiceIsAddOnce(trie: set<LpmKey>, s: string)
    ensures ApplyCommand(ApplyCommand(trie, Decode(s)), Decode(s)) == ApplyCommand(trie, Decode(s))
  {
    var c := Decode(s);
    if c.Add? && CreateLpmTrieKey(c.address).Some? {
      InsertIdempotent(trie, CreateLpmTrieKey(c.address).value);
    }
  }

  /** The line `add a.b.c.d` with its newline asks to insert exactly a.b.c.d. */
  lemma AddLineDecodes(a: Addr)
    ensures Decode(ReceivedLine("add " + FormatDotted(a) + "\n")) == Add(FormatDotted(a))
  {
    var s := "add " + FormatDotted(a);
    FormatDottedShape(a);
    assert s[|s| - 1] == FormatDotted(a)[|FormatDotted(a)| - 1];
    ReceivedLineDropsNewline(s);
    AddressDecodes(a);
  }

  /** Handling the line `add a.b.c.d` inserts the /32 key of a.b.c.d. */
  lemma AddLineInserts(trie: set<LpmKey>, a: Addr)
    ensures Replay(trie, ["add " + FormatDotted(a) + "\n"]) == AfterInsert(trie, LpmKey(32, a))
  {
    var lines := ["add " + FormatDotted(a) + "\n"];
    AddLineDecodes(a);
    HostAddressKey(a);
    assert lines[1..] == [];
  }

  /**
   * Once `add a.b.c.d` has been handled and the insert did not fail, every
   * well-formed IPv4 frame from that address is dropped by the XDP program.
   */
  lemma AddedAddressDropped(trie: set<LpmKey>, a: Addr, frame: seq<bv8>)
    requires !InsertFails(trie, LpmKey(32, a))
    requires WellFormedIpv4(frame) && SourceAddr(frame) == a
    ensures Verdict(frame, Replay(trie, ["add " + FormatDotted(a) + "\n"])) == Drop
  {
    var key := LpmKey(32, a);
    AddLineInserts(trie, a);
    SamePrefixFull(a, a);
    InsertBlacklistsKey(trie, key, a);
    DropIffBlacklisted(frame, AfterInsert(trie, key));
  }

  /** The spelling of 146.190.33.175. */
  lemma ScenarioAddressText()
    ensures FormatDotted(FromOctets(146, 190, 33, 175)) == "146.190.33.175"
  {
    ScenarioOctetFields();
    JoinFour("146", "190", "33", "175", '.');
  }

  lemma ScenarioOctetFields()
    ensures OctetFields(FromOctets(146, 190, 33, 175)) == ["146", "190", "33", "175"]
  {
    FromOctetsAt(146, 190, 33, 175);
    ScenarioDecimals();
  }

  lemma ScenarioDecimals()
    ensures DecimalString(146) == "146" && DecimalString(190) == "190"
    ensures DecimalString(33) == "33" && DecimalString(175) == "175"
  {
    assert DecimalString(14) == "14";
    assert DecimalString(19) == "19";
    assert DecimalString(17) == "17";
  }

  /**
   * The operator's `add 146.190.33.175` asks for that text, which is the /32
   * key of 146.190.33.175.
   */
  lemma ScenarioAdd(a: Addr, text: string)
    requires a == FromOctets(146, 190, 33, 175) && text == "146.190.33.175"
    ensures Decode("add " + text) == Add(text)
    ensures CreateLpmTrieKey(text) == Some(LpmKey(32, a))
  {
    ScenarioAddressText();
    HostAddressKey(a);
    AddressDecodes(a);
  }

  /**
   * After the line `add 146.190.33.175` (with its newline) is handled, with
   * an insert that does not fail, every well-formed IPv4 frame from that
   * address drops.
   */
  lemma ScenarioAddDrops(trie: set<LpmKey>, a: Addr, text: string, frame: seq<bv8>)
    requires !InsertFails(trie, LpmKey(32, a))
    requires a == FromOctets(146, 190, 33, 175) && text == "146.190.33.175"
    requires WellFormedIpv4(frame) && SourceAddr(frame) == a
    ensures Verdict(frame, Replay(trie, ["add " + text + "\n"])) == Drop
  {
    ScenarioAddressText();
    AddedAddressDropped(trie, a, frame);
  }

  /** `add a.b.c.d` asks to insert exactly a.b.c.d. */
  lemma AddressDecodes(a: Addr)
    ensures Decode("add " + FormatDotted(a)) == Add(FormatDotted(a))
  {
    FormatDottedShape(a);
    DecodeAdd(FormatDotted(a));
    SplitWithoutSeparator(FormatDotted(a), ' ');
  }

  /** The operator's `foo bar` changes nothing. */
  lemma ScenarioUnknownVerb(trie: set<LpmKey>)
    ensures Decode("foo bar") == Ignored("foo")
    ensures ApplyCommand(trie, Decode("foo bar")) == trie
  {
    SplitAfterPiece("foo", ' ', "bar");
    assert "foo bar" == "foo" + [' '] + "bar";
  }
}
