# An iptables-style classifier and an XDP source-address blacklist, in Dafny

This project models the three pieces of logic in the COS316 iptables project:

- **The in-memory classifier** (`Classifier`, `classifier.dfy`). A `Table` holds ordered `Chain`s, and a `Chain` holds ordered `Rule`s.
  - A rule matches a packet when each of its optional constraints admits it: the source network, the destination network and the protocol.
  - A chain returns the action of its first matching rule, or DROP when no rule matches.
  - A table returns the first chain result that is not the empty target, or DROP when there is none.
  - The module also covers the two cases of the program's `main`.
- **The XDP program** (`Xdp`, `xdp.dfy`). It gives a verdict for each frame:
  - ABORTED for a frame too short for an Ethernet header;
  - PASS for a frame that is not IPv4;
  - ABORTED for a frame too short for the IPv4 header;
  - DROP when the `blacklist` LPM-trie map has a prefix covering the source address;
  - PASS otherwise.

  The map is a set of `(prefixlen, addr)` keys. Its lookup is longest-prefix match. Its insert is bounded by `max_entries = 16` and fails when the key is new and the map is full; the insert semantics are the model's assumptions, listed under "## Left out".
- **The control program** (`Control`, `control.dfy`). Each line from standard input is:
  - right-trimmed of blanks, tabs, CR and LF;
  - split on single spaces;
  - dispatched on its first token. For `add`, the second token is turned into an LPM-trie key (`KeyParser`, `key_parser.dfy`) and inserted into the map.

  The map is a `Blacklist` class whose `entries` set is changed by `Insert`. `AddIPAddress`, `Dispatch` and the main loop `Serve` are methods, each proved against a function of the old state (`AfterAdd`, `ApplyCommand`, `Replay`).

Supporting modules:
- `Ipv4` (`ipv4.dfy`): addresses as `bv32` with the first octet most significant, and CIDR masks.
- `Text` (`text.dfy`): `strings.TrimRight`, `strings.Split` and its inverse `Join`, and decimal digit strings.
- `Wrappers` (`wrappers.dfy`): `Option`.

Two points where the code behaves differently from what a reader might expect, both modelled as written:

- The comment at test-iptable-in-go/test-iptable-in-go.go:99 says "No action specified", but `ProcessPacketThroughChain` returns DROP when no rule matches, not the empty target. So a non-matching chain never falls through to the next chain, and the second case of `main` yields DROP, not ACCEPT (`Classifier.Case2Drops`).
- `add` with no argument indexes past the end of the split result at iptable/main.go:82, which panics and ends the program. The model keeps it as a distinct outcome (`AddWithoutAddress`) that ends `Serve`.

Classification is a set of functions over values, so it cannot change the table or the packet, and repeated calls give the same result.

## Model

| member | source | states |
|---|---|---|
| Classifier.MatchesIffAllConstraints | test-iptable-in-go/test-iptable-in-go.go:103-117 | A rule matches iff the source is absent or contains the packet's source, the destination is absent or contains the packet's destination, and the protocol is empty or equal (both directions) |
| Classifier.CatchAllMatches | test-iptable-in-go/test-iptable-in-go.go:103-117 | A rule with no source, no destination and an empty protocol matches every packet |
| Classifier.Matches | test-iptable-in-go/test-iptable-in-go.go:103-117 | Rule.Matches, as the source's three guarded early returns in the same order |
| Classifier.Contains | test-iptable-in-go/test-iptable-in-go.go:106-109 | net.IPNet.Contains for IPv4: the network address and the candidate agree after both are masked |
| Classifier.CidrNetContains | test-iptable-in-go/test-iptable-in-go.go:152-168 | The network ip/k built with net.CIDRMask(k, 32) contains an address iff the address's k leading bits, obtained by shifting out the other 32 - k, equal ip's (each direction stated separately) |
| Classifier.ChainReturnsFirstMatch | test-iptable-in-go/test-iptable-in-go.go:93-98 | If rule i is the first rule that matches, the chain returns rule i's action |
| Classifier.FirstMatchReturnsAction | test-iptable-in-go/test-iptable-in-go.go:94-97 | The rule search over a sequence returns the action of the first matching rule |
| Classifier.LaterRulesIrrelevant | test-iptable-in-go/test-iptable-in-go.go:94-97 | Once a prefix of the rules holds a match, rules appended after it cannot change the chain's result |
| Classifier.ProcessPacketThroughChain | test-iptable-in-go/test-iptable-in-go.go:93-100 | The chain's result is DROP, or the action of the first rule that matches the packet; so it is the empty target only when that rule's action is empty |
| Classifier.FirstMatchOutcome | test-iptable-in-go/test-iptable-in-go.go:94-99 | The rule search yields DROP or the action of the first matching rule |
| Classifier.ChainWithoutMatchDrops | test-iptable-in-go/test-iptable-in-go.go:93-100 | A chain in which no rule matches, including an empty chain, returns DROP rather than the empty target |
| Classifier.NoMatchDrops | test-iptable-in-go/test-iptable-in-go.go:99 | A rule sequence with no match yields DROP |
| Classifier.FirstMatchExists | test-iptable-in-go/test-iptable-in-go.go:94-97 | If any rule matches, a first matching rule exists |
| Classifier.ChainDecidesWhenActionsSet | test-iptable-in-go/test-iptable-in-go.go:93-100 | A chain whose rules all name a target never yields the empty target |
| Classifier.FirstDecision | test-iptable-in-go/test-iptable-in-go.go:82-90 | The table's loop over chains never returns the empty target |
| Classifier.ProcessPacketThroughTable | test-iptable-in-go/test-iptable-in-go.go:82-90 | The table's result is never the empty target; it is DROP, or the result of the first chain whose result is not empty |
| Classifier.FirstDecisionExists | test-iptable-in-go/test-iptable-in-go.go:83-88 | If any chain's result is not empty, a first such chain exists |
| Classifier.FirstDecisionOutcome | test-iptable-in-go/test-iptable-in-go.go:83-89 | The table's loop yields DROP or the result of the first chain whose result is not empty |
| Classifier.EmptyTableDrops | test-iptable-in-go/test-iptable-in-go.go:83-89 | A table with no chains drops every packet |
| Classifier.TableReturnsFirstDecision | test-iptable-in-go/test-iptable-in-go.go:83-88 | If chain i is the first chain whose result is not empty, the table returns chain i's result |
| Classifier.TableWithoutDecisionDrops | test-iptable-in-go/test-iptable-in-go.go:83-89 | When every chain yields the empty target, the table returns DROP |
| Classifier.FirstChainDecides | test-iptable-in-go/test-iptable-in-go.go:82-100 | For a non-empty table whose first chain has only non-empty actions, the table's result is the first chain's result |
| Classifier.FallThroughOnUnset | test-iptable-in-go/test-iptable-in-go.go:84-87 | A first chain that yields the empty target hands the decision to the remaining chains |
| Classifier.Case1Accepts | test-iptable-in-go/test-iptable-in-go.go:122-147 | Case 1: the tcp catch-all chain accepts the tcp packet from 192.168.1.100 to 192.168.1.200 |
| Classifier.Case2SourceNetwork | test-iptable-in-go/test-iptable-in-go.go:152-159 | 192.168.2.100/24 contains every 192.168.2.x and does not contain 192.168.1.100 |
| Classifier.Case2Drops | test-iptable-in-go/test-iptable-in-go.go:170-185 | Case 2: the prepended chain matches nothing, so it returns DROP, and the table drops the packet |
| Ipv4.FromOctetsAt | test-iptable-in-go/test-iptable-in-go.go:152 | An address built from four octets gives each octet back, in order |
| Ipv4.OctetsDetermineAddr | test-iptable-in-go/test-iptable-in-go.go:152 | An address is rebuilt from its four octets |
| Ipv4.CidrMask | test-iptable-in-go/test-iptable-in-go.go:153 | net.CIDRMask(k, 32), as called at :153 and :162: the mask whose complement is exactly the 32 - k low host bits, so its k leading bits are set |
| Ipv4.CidrMaskValues | test-iptable-in-go/test-iptable-in-go.go:153 | net.CIDRMask(24, 32) is 255.255.255.0; the /32 mask is all ones; the /0 mask is zero |
| Ipv4.SamePrefixLeadingBits | test-iptable-in-go/test-iptable-in-go.go:153 | Agreement under the mask CidrMask(k) implies agreement of the k leading bits, obtained by shifting |
| Ipv4.LeadingBitsSamePrefix | test-iptable-in-go/test-iptable-in-go.go:153 | Agreement of the k leading bits, obtained by shifting, implies agreement under the mask CidrMask(k) |
| Ipv4.SamePrefixFull | iptable/bpf/xdp.c:43-44 | Two addresses agree on all 32 bits iff they are equal (each direction stated separately) |
| Ipv4.MaskedSamePrefix | iptable/bpf/xdp.c:7-12 | Clearing an address's host bits keeps its prefix |
| Ipv4.MaskFull | iptable/bpf/xdp.c:43-44 | The /32 mask keeps the whole address |
| Xdp.LongestMatch | iptable/bpf/xdp.c:43-48 | The lookup of (len, a) returns a length only when an entry of that length covers a, and then no covering entry of at most len bits is longer; it returns nothing only when no entry of at most len bits covers a |
| Xdp.CoversLeadingBits | iptable/bpf/xdp.c:8 | An LPM-trie entry covers an address iff the address's prefixlen leading bits, obtained by shifting, are the entry's (each direction stated separately) |
| Xdp.EtherType | iptable/bpf/xdp.c:26 | `ether->h_proto`, as compared at :26: its high byte is frame byte 12 and its low byte frame byte 13, the network (big-endian) order |
| Xdp.SourceAddr | iptable/bpf/xdp.c:44 | `ip->saddr`, as copied into the lookup key at :44: octet i of the address is frame byte 26 + i, bytes 12-15 of the IPv4 header after the 14-byte Ethernet header |
| Xdp.Verdict | iptable/bpf/xdp.c:17-53 | The program's verdict: ABORTED only for a frame shorter than both headers, DROP only for a well-formed IPv4 frame |
| Xdp.RuntFrameAborted | iptable/bpf/xdp.c:21-24 | A frame shorter than the 14-byte Ethernet header is ABORTED |
| Xdp.NonIpv4Passes | iptable/bpf/xdp.c:26-29 | A frame whose ethertype is not 0x0800 passes, whatever the blacklist holds |
| Xdp.TruncatedIpv4Aborted | iptable/bpf/xdp.c:31-36 | An IPv4 frame shorter than 14 + 20 bytes is ABORTED |
| Xdp.DropIffBlacklisted | iptable/bpf/xdp.c:43-53 | A well-formed IPv4 frame is dropped iff some entry covers its source address, and passes iff none does |
| Xdp.DropOnlyForBlacklisted | iptable/bpf/xdp.c:21-53 | Every dropped frame is a well-formed IPv4 frame from a blacklisted source |
| Xdp.VerdictReadsOnlyHeaderFields | iptable/bpf/xdp.c:17-53 | Two frames of equal length that agree on the ethertype and the source address get the same verdict; no other byte is read |
| Xdp.CanonicalIdempotent | iptable/bpf/xdp.c:7-12 | Canonicalising a trie key twice is the same as canonicalising it once |
| Xdp.CanonicalCovers | iptable/bpf/xdp.c:7-12 | A key and its canonical form cover the same addresses (both directions) |
| Xdp.AfterInsert | iptable/main.go:93 | An insert adds at most the key, removes nothing, and adds the key whenever it does not fail |
| Xdp.InsertKeepsBound | iptable/bpf/xdp.c:11 | An insert never takes the map past 16 entries |
| Xdp.InsertIdempotent | iptable/bpf/xdp.c:7-12 | Inserting the same key twice leaves the map as one insert does |
| Xdp.InsertBlacklistsKey | iptable/bpf/xdp.c:7-12 | After a successful insert, every address the key covers is blacklisted |
| Xdp.InsertChangesOnlyKey | iptable/bpf/xdp.c:7-12 | An insert removes nothing, and it blacklists only addresses the new key covers |
| Text.TrimRight | iptable/main.go:63 | The result is a prefix of the line; every removed character is in the cutset; the result does not end in a cutset character |
| Text.TrimRightKeepsLeading | iptable/main.go:63 | Everything up to the last character outside the cutset is kept |
| Text.TrimRightIdempotent | iptable/main.go:63 | Trimming twice is the same as trimming once |
| Text.Split | iptable/main.go:79 | strings.Split gives at least one piece, and no piece contains the separator |
| Text.JoinSplit | iptable/main.go:79 | Joining the pieces of a split with the separator gives the string back |
| Text.SplitJoin | iptable/main.go:79 | Splitting joined pieces that contain no separator gives the pieces back |
| Text.SplitWithoutSeparator | iptable/main.go:79 | A string without the separator is a single piece |
| Text.SplitAfterPiece | iptable/main.go:79-82 | A piece followed by the separator splits off as the first piece, before the split of the rest |
| Text.DecimalRoundTrip | iptable/main.go:92-93 | The decimal spelling of n is a digit string without a leading zero whose value is n |
| Text.DecimalStringLength | iptable/main.go:92-93 | Numbers below 10, 100 and 1000 are spelled with at most one, two and three digits |
| KeyParser.ParseDotted | iptable/main.go:92-93 | Go's IPv4 literal parser, as `CreateLPMtrieKey` at :92-93 applies it: a text parses iff it splits at '.' into exactly four fields that each parse as an octet, and octet i of the result is field i's value |
| KeyParser.ParseCidr | iptable/main.go:92-93 | net.ParseCIDR for IPv4, as `CreateLPMtrieKey` at :92-93 applies it: a text gives a key iff it has a '/', the text before the first '/' parses as an address and the text after it as a length from 0 to 32; the key has that length, the address's prefix, and its host bits cleared |
| KeyParser.CreatedKeysCanonical | iptable/main.go:92-93 | Every key built from a text already has its host bits cleared |
| KeyParser.CreateLpmTrieKey | iptable/main.go:92-93 | The key for a token: a text with '/' is read as a CIDR, a text with ':' gives no key, any other text is read as a /32 address |
| KeyParser.OctetRoundTrip | iptable/main.go:92-93 | The decimal spelling of an octet parses back to that octet, and contains no '.', '/' or ':' |
| KeyParser.FieldsRoundTrip | iptable/main.go:92-93 | The spellings of four octets parse back to the address of those octets |
| KeyParser.DottedRoundTrip | iptable/main.go:92-93 | The dotted-decimal spelling of any address parses back to that address |
| KeyParser.FormatDottedShape | iptable/main.go:79-93 | A dotted-decimal spelling contains no '/', ':' or blank, and ends in a digit |
| KeyParser.PlainAddressKey | iptable/main.go:92-93 | A text with no '/' or ':' that parses as address a becomes the /32 key of a |
| KeyParser.HostAddressKey | iptable/main.go:92-93 | Typing the dotted-decimal spelling of a builds the /32 key for exactly a |
| KeyParser.PrefixLenRoundTrip | iptable/main.go:92-93 | The decimal spelling of a length from 0 to 32 parses back to that length |
| KeyParser.CidrTextKey | iptable/main.go:92-93 | A text without '/' that parses as address a, then '/', then a text that parses as length k, becomes the /k key of a with the host bits cleared |
| KeyParser.CidrAddressKey | iptable/main.go:92-93 | Typing the dotted-decimal spelling of a, '/', and the decimal spelling of k builds the /k key of a with the host bits cleared |
| KeyParser.EmptyTokenHasNoKey | iptable/main.go:82-93 | An empty token builds no key |
| Control.Blacklist.constructor | iptable/bpf/xdp.c:7-12 | The map starts empty and valid: at most 16 entries, all canonical |
| Control.ReceivedLine | iptable/main.go:63 | The received line is a prefix of the raw line; only cutset characters were removed, and it does not end in one |
| Control.Decode | iptable/main.go:79-82 | The command a message asks for, from the first and second tokens of strings.Split(s, " ") |
| Control.Replay | iptable/main.go:71-87 | The map after the loop has handled the lines in order, up to the first panicking line |
| Control.Blacklist.Insert | iptable/main.go:93 | Insert keeps the map valid. Under the insert semantics assumed for the map, it fails with no space exactly when the key is new and the map already holds 16 entries. Otherwise the key is added |
| Control.AddIPAddress | iptable/main.go:91-98 | AddIPAddress builds the key and inserts it. It returns the insert's error unchanged and nil on success. The new map is AfterAdd of the old one |
| Control.Dispatch | iptable/main.go:78-85 | A message panics exactly when it is a bare `add`. Otherwise the map becomes ApplyCommand of the decoded command; the insert error is discarded |
| Control.Serve | iptable/main.go:71-87 | The loop handles the lines in order until the first panic, and the map ends as the Replay of the lines. It stops early only at a line that panics |
| Control.ReceivedLineKeepsLeading | iptable/main.go:63 | A received line keeps every character up to its last non-blank one, so leading blanks stay |
| Control.ReceivedLineDropsBlanks | iptable/main.go:63 | A line ending in any run of blanks, tabs, CRs and LFs is received without them |
| Control.ReceivedLineDropsNewline | iptable/main.go:59-63 | A line read with its newline is received without it |
| Control.DecodeAdd | iptable/main.go:79-82 | `add ` followed by text asks to insert exactly the first space-separated token of that text; later tokens are ignored |
| Control.DecodeDoubleSpace | iptable/main.go:79-82 | `add` followed by two spaces asks to insert the empty token |
| Control.DecodeBareAdd | iptable/main.go:63-82 | `add`, alone or followed by any run of blanks, tabs, CRs and LFs that trimming removes, is the panicking command |
| Control.BareAddIsExactlyAdd | iptable/main.go:79-82 | The only message that panics is exactly `add` |
| Control.LeadingBlankIgnored | iptable/main.go:63-81 | A line with a leading blank has an empty verb and is ignored |
| Control.OnlyAddChangesBlacklist | iptable/main.go:79-85 | Every verb other than `add` is ignored and leaves the map unchanged |
| Control.FailedAddChangesNothing | iptable/main.go:84-98 | An `add` whose key or insert fails leaves the map unchanged |
| Control.ReplayKeepsBound | iptable/main.go:71-87 | However many lines are handled, the map stays within 16 entries |
| Control.ReplayKeepsBlacklisted | iptable/main.go:71-87 | No line removes an entry, so a blacklisted address stays blacklisted |
| Control.AddTwiceIsAddOnce | iptable/main.go:79-85 | Handling the same line twice leaves the map as handling it once |
| Control.AddressDecodes | iptable/main.go:79-82 | `add a.b.c.d` asks to insert exactly the text a.b.c.d |
| Control.AddLineDecodes | iptable/main.go:59-82 | The line `add a.b.c.d` with its newline asks to insert exactly a.b.c.d |
| Control.AddLineInserts | iptable/main.go:59-93 | Handling the line `add a.b.c.d` inserts the /32 key of a.b.c.d |
| Control.AddedAddressDropped | iptable/main.go:71-93 | Once `add a.b.c.d` has been handled and inserting its /32 key did not fail, every well-formed IPv4 frame from a.b.c.d is dropped by the XDP program |
| Control.ScenarioAddressText | test-bench/test-nftables.go:12 | The address 146.190.33.175 is spelled "146.190.33.175" |
| Control.ScenarioOctetFields | test-bench/test-nftables.go:12 | The four octet spellings of 146.190.33.175 |
| Control.ScenarioDecimals | test-bench/test-nftables.go:12 | The decimal spellings of 146, 190, 33 and 175 |
| Control.ScenarioAdd | iptable/main.go:79-93 | `add 146.190.33.175` asks for that text, which becomes the /32 key of 146.190.33.175 |
| Control.ScenarioAddDrops | iptable/main.go:71-93 | After the line `add 146.190.33.175` is handled and the insert did not fail, every well-formed IPv4 frame from that address is dropped |
| Control.ScenarioUnknownVerb | iptable/main.go:79-85 | `foo bar` is ignored and changes nothing |

## Left out

- eBPF ELF loading, program lookup, and attaching to and detaching from an interface (iptable/main.go:21-42 and :76) are calls into the kernel through the goebpf library; they are not modelled.
- Signal handling, the reader goroutine, the channels and the `select` (iptable/main.go:48-77) are concurrency. `Serve` handles the lines one after another, in the order the reader delivers them.
- A failing `ReadString` (iptable/main.go:59-61) is only logged. The model receives only lines that were read. Logging (:61, :64, :92) is output and is left out.
- The source of goebpf's `CreateLPMtrieKey` and `Map.Insert` is not visible. The model stands in for them with its own `KeyParser.CreateLpmTrieKey` and `Control.Blacklist.Insert`: key construction follows Go's IPv4 and CIDR parsers, and the insert semantics are the assumptions listed next.
- Control.Blacklist.Insert: the insert semantics are assumptions of the model, not visible in the source.
  - A key is stored with its host bits cleared. The kernel's LPM trie stores the key as given but compares only the prefix bits, so the covered addresses and the entry count are the same.
  - Inserting a key that is already present succeeds and changes nothing. This depends on the update flag `Map.Insert` passes and on the kernel version: on a full trie, some kernels return an error even for a key that is present.
  - A new key fails with `NoSpace` when 16 entries are present.
- Control.AddIPAddress: the `InvalidKey` error for a token that builds no key is an assumption. The source (iptable/main.go:93) always calls `Insert` with whatever `CreateLPMtrieKey` returns, and what that insert does for an unparsable token (`add  x`, `add foo`) is not visible. The model assumes that `CreateLPMtrieKey` returns normally for every text, that it yields no key for a text that does not parse, and that the loop then goes on; for such a text the model returns `InvalidKey` and leaves the map unchanged. If the library panicked instead, the program would end, as a bare `add` does at iptable/main.go:82.
- IPv6: a text containing ':' builds no key. The map's 8-byte key holds an IPv4 address only. Go's 16-byte form of `net.IP` and its length-mismatch cases in `Contains` are not modelled.
- The map's values (always 0) and the `rule_idx` the XDP program reads and ignores (iptable/bpf/xdp.c:49) are not modelled.
- The kernel's trie data structure is not modelled: the map is a set of keys, with only the lookup semantics.
- Classifier.TargetType: the source's TargetType is an open string type. The model has its three constants plus the empty string (`Unset`); other strings play no part in the code.
- The classifier and the XDP program are not connected in the source, so no lemma composes them.
- server/main.go, test-bench/test-nftables.go and test-bench/test-performance.py are socket I/O, shell commands and timing. They are not part of this model; only the address from test-bench/test-nftables.go:12 is used as an example.
