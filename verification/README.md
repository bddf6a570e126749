# A verified model of the FileZilla server's hard logic

This project models, in Dafny, the parts of the server whose correctness does not follow from
reading one function, and proves what they promise. Code that works in place is modelled in
place: cursors, arrays, rings of nodes, lease objects and the operation stack are classes and
arrays whose methods are proved equal to functions on values, and the theorems are about those
functions, for every input, every run or every reachable state.

- **Addresses** (`Parser`, `HostAddress`, `Ipv6Printer`, `Bits`, `Prefix`, `AddressRange`,
  `AnyRange`, `HostOrder`): the IPv4 and IPv6 parsers, the in-place expansion of `::`, the
  printer with zero compression (section 4.2 of RFC 5952), blocks and prefix lengths (section 3.1
  of RFC 4632), ranges as text, and the comparison of addresses.
- **The languages of addresses** (`Numerals`, `AddressGrammar`, `LetterCase`, `PrintedForm`,
  `RangeGrammar`): which texts denote which numbers, addresses and ranges, written down without the
  parsers and proved to be exactly what they accept.
- **Passive ports** (`PortTable`, `PortRandomizer`, `PortLeases`, `PortExpiry`): the shared table, the
  search with its relaxing policy, leases that are made, connected, moved and destroyed in any order,
  and the time that a port has to wait afterwards.
- **ACME client** (`AcmeModel`, `AcmeProofs`, `AcmeRuns`, `AcmeTheorems`, `AcmeAddresses`,
  `AcmeWitnesses`, `AcmeClient`): the resumable operation stack driven by HTTP replies. `AcmeModel`
  says what every operation does, `AcmeClient` is the class that does it, the theorems range over all
  runs from a fresh client with arbitrary replies, `AcmeAddresses` compares every request with a book
  that is kept of the server's replies alone, and `AcmeWitnesses` holds runs that reach the certificate
  and the states in which the client goes wrong.
- **Pipe** (`PipeModel`, `PipeErrors`, `PipeAnswers`, `Pipe`): adder, buffer and consumer with their
  wake-up flags, deferred errors and end-of-file rules.
- **Intrusive list** (`IntrusiveList`): the ring of nodes refines a sequence.
- **Strings** (`Escaping`, `EscapeMap`, `Csv`, `Html`): escaping, quoting, joining, the CSV copy of the log
  read back under section 2 of RFC 4180, and HTML encoding.
- **Lists on screen** (`ColumnLayout`, `OrderedMap`, `SessionModel`, `SessionList`, `ServerLog`):
  width distribution, the row count of the session list, and the ring of log lines.

Where the code does not do what it is evidently meant to do, the code is modelled as it is, and the
lemma named with each point says exactly when it does meet its purpose:

- An IPv6 address whose first hextet is zero and that has no two zero hextets in a row prints with
  a single leading colon, which the parser rejects (`Ipv6RoundTripExactly`).
- An IPv6 address may end in a single colon behind a hextet, if `::` stands somewhere in front or it
  is the eighth: `1::2:` is read as `1::2` (`ReadsIpv6`, `OnlyIpv6`).
- An interval is put in order by comparing word by word, and only the first words decide whether it
  is valid: `0.6.0.0-1.5.0.0` ascends and is refused (`IntervalValidExactly`). The test of
  `to_string` for a full-width prefix with different ends never succeeds
  (`FullPrefixIsOneAddress`).
- `less_than` with the wildcard address counting as equivalent is not transitive and has cycles
  (`TransitiveExactly`, `CircleExactly`).
- An ACME operation that comes to a challenge that is not pending makes no request and waits
  forever (`StallsExactly`, `StallIsForever`). A challenge whose start was answered by a bad nonce is
  not started again (`RetryRepeatsExactly`,
  `RetrySkipsChallenge`). A certificate call without hosts comes to handle a reply outside of its
  vectors (`StackDiscipline`). All three are reached (`ChallengesReached`).
- An adder event that ends on a shutdown is reported without an error, without flushing the buffer
  (`ShutdownSkipsFlush`). An error that comes with an adder event is reported with the consumer as
  its source (`AdderErrorIsConsumers`), and makes the pipe lose an error that it had deferred
  (`DeferredFate`).
- A lease that is assigned to itself gives its port back and loses it (`AssignGivesBack`).
- Splicing a list of one node does nothing (`List.Splice`).
- `unescaped` undoes `escaped` only for escape strings of one character, or when there was nothing
  to escape (`UnescapeUndoesExactly`).
- A column that is stopped by its minimum width is counted with the wrong sign, unless it is the
  last: the columns together change by twice what the others gave up too much, less what the last
  one cannot give (`ClampingMissesBy`, `ClampingOvershoots`).
- Progress of an unknown transfer in a session that has others adds a row that is not counted; the
  count can then wrap around (`CountIsRightExactly`).
- Changing the size of the log's ring does not move its beginning, after which rows or the next line
  may lie outside of the vector (`GuardedRunIsSafe`, `UnguardedGoesWrong`).

`hide` statements keep definitions out of proofs that do not need them.

## Model

| member | source | states |
|---|---|---|
| Parser.ValueOfPrefix | src/filezilla/util/parser.hpp:312-319 | The value of the digits read so far never exceeds that of the whole run, so stopping early on overflow is right. |
| Parser.OverflowTest | src/filezilla/util/parser.hpp:266-288 | The two-step overflow test without wide intermediates is equivalent to comparing the exact value with the maximum. |
| Parser.Cursor.Lit | src/filezilla/util/parser.hpp:79-82 | Consumes one character exactly if it is there and matches; otherwise the cursor stays. |
| Parser.Cursor.ReadInt | src/filezilla/util/parser.hpp:247-326 | Reads the maximal digit run and yields its value iff there is a digit and the value fits; a failure leaves the cursor where it was. |
| Parser.PrintRoundTrip | src/filezilla/hostaddress.cpp:53-57 | A printed number is read back exactly, and reading stops where the number ends. |
| Numerals.ValueIsSpelled | src/filezilla/util/parser.hpp:256-264 | The value of a run of digits is the number that it spells, the digits written out as characters: `0` to `9`, and `a` to `f` or `A` to `F` for 10 to 15. |
| Numerals.ParseIntExactly | src/filezilla/util/parser.hpp:247-326 | `parse_int` yields v iff the text begins with a numeral for v, in either case and with any zeros in front, that fits and behind which no digit follows. |
| Numerals.PrintIsCanonical | src/filezilla/hostaddress.cpp:53-92 | A printed number is its shortest numeral, in lower case. |
| HostAddress.ReadIpv4 | src/filezilla/hostaddress.hpp:301-308 | The cursor parser reads what `ParseIpv4` denotes, including the octets already written when it fails. |
| HostAddress.Ipv4RoundTrip | src/filezilla/hostaddress.cpp:53-57 | Every printed IPv4 address parses to itself, up to any text that is not another digit. |
| HostAddress.Ipv4Bounded | src/filezilla/hostaddress.hpp:301-308 | Whatever is parsed, also on failure, every octet stays below 256. |
| HostAddress.HextetsBounded | src/filezilla/hostaddress.hpp:315-346 | The hextet loop writes only words below 2^16 (an embedded IPv4 suffix included), for every input. |
| HostAddress.ReadIpv4Suffix | src/filezilla/hostaddress.hpp:322-336 | The embedded IPv4 suffix goes back to where its first number starts and writes two hextets inside the array, or refuses. |
| HostAddress.ReadGroup | src/filezilla/hostaddress.hpp:316-346 | One round of the loop is one step of the scan; a round that goes on has consumed input. |
| HostAddress.ExpandInPlace | src/filezilla/hostaddress.hpp:348-366 | The overlapping shift yields prefix, zeros, suffix, for all lengths of prefix and suffix. |
| HostAddress.ReadIpv6 | src/filezilla/hostaddress.hpp:310-372 | The parser terminates, stays inside the array and leaves result, cursor and array as `ParseIpv6` says; what that accepts is in `AddressGrammar`. |
| HostAddress.Ipv6Bounded | src/filezilla/hostaddress.hpp:310-372 | Parsing leaves a well-formed address, accepted or not. |
| AddressGrammar.ReadsIpv4 | src/filezilla/hostaddress.hpp:301-308 | Four decimal numerals up to 255 with separators are read as these octets, whatever was in the array. |
| AddressGrammar.OnlyIpv4 | src/filezilla/hostaddress.hpp:301-308 | Whatever is accepted is that. |
| AddressGrammar.ReadsIpv6 | src/filezilla/hostaddress.hpp:310-372 | Every spelling of eight hextets is read as that address: digits in either case, zeros in front, `::` for any zeros at any one place, an IPv4 suffix, with brackets and without. |
| AddressGrammar.OnlyIpv6 | src/filezilla/hostaddress.hpp:310-372 | Every text that is accepted begins with a spelling of the address that comes out, and ends there. |
| LetterCase.CaseIsIgnored | src/filezilla/util/parser.hpp:256-264 | Texts that differ only in the case of hexadecimal digits are accepted alike, as the same address. |
| LetterCase.AnyCaseRoundTripExactly | src/filezilla/hostaddress.hpp:310-372 | A printed address in any mix of cases is read back iff the printed text itself is, which is iff it has no lone colon. |
| Ipv6Printer.LongestGapIsUnique | src/filezilla/hostaddress.cpp:64-75 | The gap that is found is the first among the longest runs of zeros, and the only one with that property. |
| Ipv6Printer.FindGap | src/filezilla/hostaddress.cpp:62-75 | The scan over zero runs finds that gap. |
| Ipv6Printer.ToString | src/filezilla/hostaddress.cpp:59-92 | The two loops print the text in which exactly that gap is abbreviated. |
| Ipv6Printer.LoneColonGap | src/filezilla/hostaddress.cpp:64-88 | A single leading colon is printed exactly if hextet 0 is zero and no two adjacent hextets are. |
| Ipv6Printer.Ipv6RoundTrip | src/filezilla/hostaddress.cpp:59-92 | A printed address without a lone leading colon parses to itself, whatever was in the array and whatever follows. |
| Ipv6Printer.LoneColonRejected | src/filezilla/hostaddress.hpp:340-346 | A printed address with a lone leading colon is rejected and nothing is written. |
| Ipv6Printer.Ipv6RoundTripExactly | src/filezilla/hostaddress.hpp:310-372 | Parsing a printed address gives it back iff it is not one of those with a lone colon. |
| PrintedForm.PrintedText | src/filezilla/hostaddress.cpp:59-92 | What is printed is the spelling with shortest numerals in lower case in which the first of the longest runs of zeros is the double colon (section 4 of RFC 5952, but for single zeros). |
| PrintedForm.PrintedSpells | src/filezilla/hostaddress.cpp:59-92 | And that is a spelling of the address. |
| Bits.XorShift | src/filezilla/hostaddress.cpp:26-27 | A shifted exclusive or is zero iff two words agree on the remaining bits. |
| Bits.OrMask | src/filezilla/hostaddress.hpp:459 | Or with a mask of low ones fills exactly those bits. |
| Bits.AndMask | src/filezilla/hostaddress.hpp:460 | And with the complement of such a mask clears exactly those bits. |
| Bits.TrailingZerosCount | src/filezilla/util/bits.hpp:12-27 | The count of trailing zeros is the largest number of low bits that are all zero; the width for zero. |
| Bits.TrailingOnesCount | src/filezilla/util/bits.hpp:29-34 | The count of trailing ones is the largest number of low bits that are all one; the width for all ones. |
| Bits.NumberInjective | src/filezilla/hostaddress.hpp:30-72 | Different words denote different numbers. |
| Prefix.BlockSizeIsUnique | src/filezilla/hostaddress.cpp:6-33 | An interval is a block of at most one size. |
| Prefix.OnlyCandidate | src/filezilla/hostaddress.cpp:12-23 | The number of common zero and one bits at the end is the only size that a block with these ends can have. |
| Prefix.CountSubnetBits | src/filezilla/hostaddress.cpp:9-23 | The first loop adds up that number over the words from the back. |
| Prefix.SameAbove | src/filezilla/hostaddress.cpp:25-30 | The second loop succeeds iff both ends agree above those bits. |
| Prefix.CalcPrefix | src/filezilla/hostaddress.cpp:6-33 | Yields W-k iff the bits above k agree and the low k are all 0 in `from` and all 1 in `to`; nothing if there is no such k. |
| Prefix.EndsAreNumbers | src/filezilla/hostaddress.hpp:443-461 | Clearing and filling words denotes clearing and filling the low k bits of the whole number. |
| Prefix.FillSubnet | src/filezilla/hostaddress.hpp:443-461 | The loop through reverse iterators and the residual mask turn the two arrays into these ends. |
| Prefix.PrefixEnds | src/filezilla/hostaddress.hpp:439-464 | The ends of `ip/p` form a block of the right size, and the addresses between them are exactly those that share the first p bits of `ip`. |
| Prefix.BlockIsItsEnds | src/filezilla/hostaddress.cpp:6-33 | Conversely every block is what its first address and its prefix length denote. |
| AddressRange.ReadInterval | src/filezilla/hostaddress.hpp:414-436 | The interval form, with its word-by-word test and the swap. |
| AddressRange.ReadPrefix | src/filezilla/hostaddress.hpp:439-467 | The CIDR form refuses prefixes beyond the width and otherwise fills both arrays. |
| AddressRange.ReadIpRange | src/filezilla/hostaddress.hpp:401-475 | All four forms, with cursor and arrays on every failure. |
| AddressRange.ReadRange | src/filezilla/hostaddress.hpp:542-554 | The whole text has to be consumed; otherwise the range is marked invalid in its first words. |
| AddressRange.PrefixIsUnique | src/filezilla/hostaddress.cpp:6-33 | A range has at most one prefix length. |
| AddressRange.RangeToString | src/filezilla/hostaddress.cpp:35-51 | Prints a single address, a block or an interval, according to the prefix length that the range has. |
| AddressRange.FullPrefixIsOneAddress | src/filezilla/hostaddress.cpp:44 | A range with a prefix of full width has equal ends, so that half of the test never decides. |
| AddressRange.HostRoundTrip | src/filezilla/hostaddress.hpp:301-372 | Of either family, a printed address is read back iff it is printable; otherwise nothing is written. |
| AddressRange.BlockRoundTrip | src/filezilla/hostaddress.cpp:42-48 | Single addresses and blocks are read back whenever their first address is. |
| AddressRange.IntervalRoundTrip | src/filezilla/hostaddress.hpp:413-436 | An interval is read back iff both ends are and are in order word by word; otherwise its ends come back swapped. |
| AddressRange.RangeRoundTripExactly | src/filezilla/hostaddress.cpp:35-51 | Which ranges survive being printed and parsed: both directions, all ranges of both families. |
| AddressRange.StarIsEverything | src/filezilla/hostaddress.hpp:403-409 | `*` is valid and contains every address of the family. |
| AddressRange.CidrDenotes | src/filezilla/hostaddress.hpp:439-467 | An address with a prefix length is the range of exactly the addresses that share its first bits; a length beyond the width is invalid. |
| RangeGrammar.OnlyRanges | src/filezilla/hostaddress.hpp:401-475 | Every valid range is what one of the four forms stands for, and the text has that form from its first character to its last. |
| AnyRange.ReadAny | src/filezilla/hostaddress.hpp:267-276 | IPv4 is tried first, then IPv6 on the whole text again. |
| AnyRange.Ipv6IsNotIpv4 | src/filezilla/hostaddress.hpp:267-276 | No printed IPv6 range is taken for an IPv4 range. |
| AnyRange.AnyRoundTripExactly | src/filezilla/hostaddress.hpp:267-276 | A printed range comes back with its family under exactly the same condition as when the family is known. |
| AnyRange.IntervalValidExactly | src/filezilla/hostaddress.hpp:197-199 | An interval that is written out is valid iff its ends are in order word by word or the first words do not ascend. |
| AnyRange.AscendingIntervalIsLost | src/filezilla/hostaddress.hpp:416-430 | A numerically ascending interval that is refused. |
| HostOrder.LessThanIsBefore | src/filezilla/hostaddress.cpp:175-203 | Without wildcards the case analysis is the order by family, address and port. |
| HostOrder.StrictTotalOrder | src/filezilla/hostaddress.cpp:151-203 | Without wildcards `less_than` is a strict total order and equivalence is equality, which is neither being less. |
| HostOrder.WildcardsMatterOnlyForAny | src/filezilla/hostaddress.cpp:151-203 | Among addresses that are no wildcards the flag changes nothing. |
| HostOrder.EquivalentExactly | src/filezilla/hostaddress.cpp:151-173 | Equivalent are equal addresses and, with wildcards, those of a family of which one, on either side, is its wildcard; with equal ports in any case. |
| HostOrder.LessWithWildcards | src/filezilla/hostaddress.cpp:175-203 | With wildcards, an address and the wildcard of its family are compared by port; all others as without. |
| HostOrder.KindsInOrder | src/filezilla/hostaddress.cpp:175-203 | No address comes before version 4, that before version 6, and unknown hosts come last, whatever ports and flag are. |
| HostOrder.WildcardIs | src/filezilla/hostaddress.cpp:151-203 | The wildcards are the two addresses of zeros only. |
| HostOrder.CircleExactly | src/filezilla/hostaddress.cpp:189-193 | When two addresses and the wildcard of their family, compared in that order, form a cycle of `less_than`. |
| HostOrder.WildcardsMakeCircles | src/filezilla/hostaddress.cpp:175-203 | Such a cycle. |
| HostOrder.TransitiveExactly | src/filezilla/hostaddress.cpp:175-203 | For all addresses a, b, c with a below b and b below c, with wildcards: a is below c unless exactly one of them is the wildcard of their family and the other two are ordered the other way round. |
| HostOrder.EquivalentAtBothEnds | src/filezilla/hostaddress.cpp:186-196 | Three addresses of which each is less than the next and the last is equivalent to the first. |
| PortTable.PortManager.Release | src/filezilla/port_randomizer.cpp:99-117 | Gives back one lease of the peer's entry, starts its expiry, and ends the listening stage unless connected; nothing for port 0. What that means for the port afterwards is in `PortExpiry`. |
| PortTable.PortManager.SetConnected | src/filezilla/port_randomizer.cpp:120-125 | Ends the listening stage of the port and nothing else. |
| PortTable.PortManager.Prune | src/filezilla/port_randomizer.cpp:128-138 | Removes exactly the unleased entries that have expired, keeping the order. |
| PortTable.PortManager.Try | src/filezilla/port_randomizer.cpp:69-92 | The locked body: what one visit does to the port's entries and flag, and whether it takes the port. |
| PortTable.FreeIffAllExpired | src/filezilla/port_randomizer.cpp:72-84 | After pruning a port has no entry iff all of its entries were unleased and expired. |
| PortRandomizer.Bounds | src/filezilla/port_randomizer.cpp:13-27 | Any two constructor arguments lead to a non-empty range within 1 to 65535. |
| PortRandomizer.AdvanceSpendsBudget | src/filezilla/port_randomizer.cpp:44-67 | From any reachable state every advance stays in range and lowers the number of remaining visits by exactly one, or gives up at zero. |
| PortRandomizer.VisitsAreBounded | src/filezilla/port_randomizer.cpp:39-96 | A search without interference visits no more than three ports for every port of the range, none outside it, and gives up only when all these visits are made. |
| PortRandomizer.VisitsAmongAreBounded | src/filezilla/port_randomizer.cpp:39-96 | The same whatever others do to the table between the visits. |
| PortRandomizer.FindFrom | src/filezilla/port_randomizer.cpp:39-96 | From any place in any sweep the search without interference ends in the best choice that is left. |
| PortRandomizer.FreshChoiceIsBest | src/filezilla/port_randomizer.hpp:18-23 | The first port of a fresh randomizer is of the best tier there is, cyclically the first of it from the start port; there is none iff every port is in the listening stage. |
| PortRandomizer.Randomizer.constructor | src/filezilla/port_randomizer.cpp:7-32 | Swaps and clamps the bounds; the start port lies between them. |
| PortRandomizer.Randomizer.DoGetPort | src/filezilla/port_randomizer.cpp:39-96 | The loop terminates and leaves port, search state and table as the search function says. |
| PortExpiry.BoundsExactly | src/filezilla/port_randomizer.cpp:13-27 | The range holds exactly the ports between the two arguments, in either order; if these hold none, the nearest one. |
| PortExpiry.ReleaseStartsTimeWait | src/filezilla/port_randomizer.cpp:99-117 | For 240000 ms after a release the port is free for nobody, and used by the same peer for that peer; it is free then iff it was the last lease and no other entry keeps it. |
| PortExpiry.ReleaseTouchesOne | src/filezilla/port_randomizer.cpp:99-117 | A release takes one lease off one entry and sets its expiry, changing no other entry and no other port; the listening mark stays iff the lease was connected. |
| PortExpiry.SearchAvoidsTimeWait | src/filezilla/port_randomizer.hpp:18-23 | A fresh search never hands out a port within that time while another one is free. |
| PortExpiry.SearchTakesExpired | src/filezilla/port_randomizer.hpp:18-23 | After that time it hands out the port again. |
| PortLeases.ReleaseFindsEntry | src/filezilla/port_randomizer.cpp:163-167 | In every reachable state, destroying a lease of a nonzero port finds its entry with a positive count. |
| PortLeases.PruneKeepsLeased | src/filezilla/port_randomizer.cpp:128-138 | Pruning never removes an entry on which a live lease counts. |
| PortLeases.StepKeepsInv | src/filezilla/port_randomizer.cpp:39-182 | Every search round, connection, move, assignment (of a lease to itself too) and destruction keeps the invariant of table and leases. |
| PortLeases.ReachableInv | src/filezilla/port_randomizer.cpp:39-182 | It holds after every interleaving of operations. |
| PortLeases.Conservation | src/filezilla/port_randomizer.cpp:76-90 | After every interleaving there is at most one entry per port and peer, and its count is the number of live leases for that pair. |
| PortLeases.WaitingLeasesAreApart | src/filezilla/port_randomizer.cpp:71-91 | After every interleaving two leases that both wait for their connection are for different ports. |
| PortLeases.GetPortIsARun | src/filezilla/port_randomizer.cpp:34-96 | A whole search is a run of such rounds, so that it may be interleaved with others round by round. |
| PortLeases.PortLease.Move | src/filezilla/port_randomizer.cpp:141-148 | The new lease takes over port, peer and stage; the old one is left with port 0. |
| PortLeases.PortLease.Assign | src/filezilla/port_randomizer.cpp:150-161 | Releases the port held before and takes over the other one, as the state machine says, also for self-assignment. |
| PortLeases.PortLease.Destroy | src/filezilla/port_randomizer.cpp:163-167 | Releases the port with the lease's stage. |
| PortLeases.PortLease.SetConnected | src/filezilla/port_randomizer.cpp:176-182 | Ends the listening stage once. |
| PortExpiry.ConnectEndsListening | src/filezilla/port_randomizer.cpp:176-182 | Over reachable states: connecting ends the listening stage that the lease was in, and changes nothing else. |
| PortExpiry.DestroyGivesBack | src/filezilla/port_randomizer.cpp:163-167 | Destroying a lease takes one off its pair, starts the 240000 ms and ends the listening stage it was in. |
| PortExpiry.MoveHandsOver | src/filezilla/port_randomizer.cpp:141-148 | A move leaves table and other leases alone, and the old lease without a port. |
| PortExpiry.AssignGivesBack | src/filezilla/port_randomizer.cpp:150-161 | An assignment does to the table what destroying the lease would do; a lease assigned to itself loses its port. |
| AcmeProofs.ExecDescends | src/filezilla/acme/client.cpp:598-615 | `execute` amounts to pushing one call path and letting the operation at its end act. |
| AcmeProofs.ReenterResumes | src/filezilla/acme/client.cpp:617-633 | `reenter` drops the operations that are done and descends from the first that is not. |
| AcmeProofs.ActKeepsInv | src/filezilla/acme/client.cpp:181-578 | Whatever the operation at the top does (request, stop, stall), the invariant of stack, requests, nonces and log holds afterwards. |
| AcmeRuns.HandleKeepsInv | src/filezilla/acme/client.cpp:635-698 | Every reply, good or bad, keeps it. |
| AcmeRuns.CallKeepsInv | src/filezilla/acme/client.cpp:79-180 | Every public call keeps it. |
| AcmeRuns.StepKeepsInv | src/filezilla/acme/client.cpp:580-698 | So does every input to the client. |
| AcmeRuns.PlayInv | src/filezilla/acme/client.cpp:580-698 | It holds after every run from a fresh client. |
| AcmeTheorems.StackDiscipline | src/filezilla/acme/client.cpp:598-698 | Between callbacks the stack is empty or a call path from the operation that was requested last, with requests for a nonce on top after a bad nonce; the next reply's handler stays inside its vectors iff it is not about polling for a call without hosts. |
| AcmeTheorems.OneTerminalEvent | src/filezilla/acme/client.cpp:9-21 | Between two terminal events there is a public call, and an event carries the id of the latest call before it. |
| AcmeTheorems.NothingLeftAfterEvent | src/filezilla/acme/client.cpp:9-21 | After a terminal event the stack is empty and no request is under way. |
| AcmeTheorems.OneRequestUnderWay | src/filezilla/acme/client.cpp:360-398 | With a non-empty stack there is exactly one request, of the kind that the top operation asks, or the client has stalled in starting challenges and there is none. |
| AcmeTheorems.StallsExactly | src/filezilla/acme/client.cpp:360-398 | Re-entering stalls iff it comes to a challenge that is not pending. |
| AcmeTheorems.StallIsForever | src/filezilla/acme/client.cpp:580-587 | Once stalled, no input changes anything but the shared counter of ids. |
| AcmeTheorems.RequestsInOrder | src/filezilla/acme/client.cpp:455-578 | In every run finalizing is asked for only while the order is ready, the certificate only once it is valid (section 7.1.6 of RFC 8555). |
| AcmeAddresses.RequestsGoWhereTold | src/filezilla/acme/client.cpp:181-578 | Over every run every request goes to the address that the replies so far have given for its kind: the entries of the directory; the k-th authorization for the k-th host; the url of the k-th challenge; the authorizations in turn; the location, `finalize` and `certificate` of the latest order; when it is due, signed with the latest nonce; and a success event is the one that was asked for. |
| AcmeAddresses.PlayKnows | src/filezilla/acme/client.cpp:181-698 | After every run the client's record is what a book kept of the replies alone says. |
| AcmeAddresses.BadReplyEnds | src/filezilla/acme/client.cpp:642-686 | A reply that is an error other than a bad nonce, has a date too far off when that is checked, or is no success ends the operation with the failure event. |
| AcmeAddresses.LackingReplyEndsExactly | src/filezilla/acme/client.cpp:181-578 | A good reply ends it at once iff it lacks what the request was for: directory, nonce, account and its location, order and its location, or an authorization with an http-01 challenge. |
| AcmeAddresses.WaitingFailsExactly | src/filezilla/acme/client.cpp:409-438 | Waiting ends the operation iff an authorization and one of its challenges are invalid, or the next one cannot be asked for. |
| AcmeAddresses.IdsComeRound | src/filezilla/acme/client.cpp:589-593 | Ids lie between 1 and 2^64 - 1, and one comes back only after all others. |
| AcmeAddresses.CallTakesId | src/filezilla/acme/client.cpp:79-180 | A call that is not refused takes the next of them and starts with it in the log. |
| AcmeTheorems.NoncesSignOnce | src/filezilla/acme/client.cpp:635-718 | In every run in which the server never repeats a nonce, no nonce signs two requests (section 6.5 of RFC 8555). |
| AcmeTheorems.BadNonceAsksForNonce | src/filezilla/acme/client.cpp:642-651 | A bad nonce puts a request for a nonce on top of the failed operation. |
| AcmeTheorems.BadNonceWithoutAddress | src/filezilla/acme/client.cpp:198-209 | Without an address for nonces in the directory a bad nonce ends the operation. |
| AcmeTheorems.RetryRepeatsExactly | src/filezilla/acme/client.cpp:642-698 | A signed request that met a bad nonce has been made again, with only the nonce changed, after two replies iff the directory has an address for nonces and the request was not the start of a challenge. |
| AcmeTheorems.RetryRepeatsRequest | src/filezilla/acme/client.cpp:642-698 | With an address for nonces, after the new nonce the same request is made again with only the nonce changed, for every operation but the start of a challenge. |
| AcmeTheorems.RetrySkipsChallenge | src/filezilla/acme/client.cpp:360-398 | What follows instead for the start of a challenge, for every rest of the queue: the next one is started, or refused, or stalls the client; after the last one the authorizations or the order are polled although a challenge has never been started. |
| AcmeWitnesses.ChallengesReached | src/filezilla/acme/client.cpp:311-398 | For every list of challenges a run that comes to it: it stalls if the first one is not pending, is starting the first one with the others in the queue if it is, and polls outside of its vectors if there is none. |
| AcmeWitnesses.CertificateReached | src/filezilla/acme/client.cpp:131-180 | For every number of hosts, and any startable challenges for them, a run that ends with the certificate event; the server names the certificate only in its answer to the finalizing. |
| AcmeWitnesses.AccountReached | src/filezilla/acme/client.cpp:104-129 | A run that ends with the account event. |
| AcmeWitnesses.TermsReached | src/filezilla/acme/client.cpp:79-102 | A run that ends with the terms of service. |
| AcmeClient.AcmeClient.Stop | src/filezilla/acme/client.cpp:9-21 | Emits the event and forgets operation, stack and challenger. |
| AcmeClient.AcmeClient.DoGetDirectory | src/filezilla/acme/client.cpp:181-196 | Succeeds at once, changing nothing, with a directory in hand; otherwise makes one unsigned request for it. As for the following ones, every field of the client afterwards is the model's. |
| AcmeClient.AcmeClient.DoGetNonce | src/filezilla/acme/client.cpp:198-218 | Succeeds at once with a nonce in hand, else gets the directory and asks for one. |
| AcmeClient.AcmeClient.DoGetAccount | src/filezilla/acme/client.cpp:220-268 | Succeeds at once with a key id; otherwise gets directory and nonce and signs with that nonce, or stops when it cannot. |
| AcmeClient.AcmeClient.DoGetOrder | src/filezilla/acme/client.cpp:270-309 | Succeeds at once with an order; otherwise signs a request for one. |
| AcmeClient.AcmeClient.DoGetAuths | src/filezilla/acme/client.cpp:311-358 | Asks for one authorization after the other until there is one for every host. |
| AcmeClient.AcmeClient.DoStartChallenges | src/filezilla/acme/client.cpp:360-398 | Takes challenges off the queue, and returns without a request for one that is not pending. |
| AcmeClient.AcmeClient.DoWaitChallenges | src/filezilla/acme/client.cpp:400-453 | Polls the authorizations in turn; stops on an invalid one. |
| AcmeClient.AcmeClient.DoFinalize | src/filezilla/acme/client.cpp:455-537 | Finalizes a ready order, polls a processing one, succeeds with a valid one, stops otherwise. |
| AcmeClient.AcmeClient.DoGetCertificate | src/filezilla/acme/client.cpp:539-578 | Executes the six operations in order and then asks for the certificate. |
| AcmeClient.AcmeClient.Execute | src/filezilla/acme/client.cpp:598-615 | Pushes the operation, runs it, and pops it only if it succeeds and nobody has emptied the stack. |
| AcmeClient.AcmeClient.ReenterStack | src/filezilla/acme/client.cpp:617-633 | The loop terminates; it runs operations from the top down until one does not succeed. |
| AcmeClient.AcmeClient.HandleReply | src/filezilla/acme/client.cpp:635-698 | Bad nonces, errors, wrong dates and good replies lead to the state of the state machine, with the handler that belongs to the request. |
| AcmeClient.AcmeClient.UpdateOpid | src/filezilla/acme/client.cpp:580-596 | Refuses a second operation; otherwise the next nonzero id of the 64-bit counter, which others may have moved on in between. |
| AcmeClient.AcmeClient.Start | src/filezilla/acme/client.cpp:79-180 | The three public calls set up a fresh record and execute their root; a certificate call that does not say how to serve challenges fills in its record and stops there. |
| PipeModel.AdderEventStaysAwake | src/filezilla/pipe.cpp:132-163 | With both ends attached, sends working and an adder that adds, every adder event ends in completion, or with the consumer waited for if the buffer is not empty, and the adder if it is. |
| PipeModel.ConsumerEventStaysAwake | src/filezilla/pipe.cpp:165-207 | Whatever the consumer answers, every consumer event ends in completion, or with the adder waited for if the buffer is empty or the last answer was ENODATA, and the consumer otherwise. |
| PipeModel.NoLostWakeup | src/filezilla/pipe.cpp:132-310 | Over every such run no wake-up is lost until the pipe is done, and after each event the end whose turn it is is the one waited for. |
| PipeModel.IdleAdderIsLost | src/filezilla/pipe.cpp:217-280 | Why the adder has to add: one that succeeds without adding leaves a pipe that nobody wakes up. |
| PipeModel.RunConserves | src/filezilla/pipe.cpp:116-310 | Over every run, until cleared, bytes consumed followed by the buffer are the bytes added; and no end of file is reported over data that the consumer could still use. |
| PipeModel.EndOfFile | src/filezilla/pipe.cpp:247-261 | Completion by end of file with wait-for-empty on means that the buffer is empty or the consumer last said ENODATA. |
| PipeModel.EofDeliversAll | src/filezilla/pipe.cpp:247-261 | Then, unless the consumer said so, every byte ever added has been consumed. |
| PipeErrors.AdderErrorIsConsumers | src/filezilla/pipe.cpp:132-153 | An adder event that completes the pipe names the adder as the source iff it carries no error of its own; its own error is reported as the consumer's, over the untouched buffer. |
| PipeErrors.ConsumerErrorIsConsumers | src/filezilla/pipe.cpp:165-198 | A consumer event that completes the pipe names the consumer. |
| PipeErrors.ShutdownSkipsFlush | src/filezilla/pipe.hpp:28-40 | An adder event completes without a reported error over bytes that were to be flushed and could be used iff its own error, else the deferred one, else the first answer of the adder is -ESHUTDOWN over such bytes. |
| PipeErrors.QuietRunFlushes | src/filezilla/pipe.cpp:210-280 | Over every run without -ESHUTDOWN, no completion of the adder without a reported error leaves such bytes behind. |
| PipeErrors.DeferredExactly | src/filezilla/pipe.cpp:210-280 | An event leaves the error e in its field iff it carries none, none was there, both ends are attached, and the first answer after at least one good round is e, which is none of the signals. |
| PipeErrors.DeferredFate | src/filezilla/pipe.cpp:132-207 | Every event reports a deferred error, loses it, or keeps it: exactly which, from the event and the answers. |
| PipeErrors.DeferredWaitsExactly | src/filezilla/pipe.cpp:39-207 | Over any events that do not report it, the error is still there with nothing completed iff none of them loses it, and then nothing has been added. |
| PipeErrors.DeferredErrorReported | src/filezilla/pipe.cpp:210-280 | Over a run: the event that defers e, events that do not lose it, and the next adder event, which completes with e from the adder, with nothing added since. |
| PipeAnswers.AdderEventFlagsExactly | src/filezilla/pipe.cpp:132-163 | Both flags after an adder event that completes nothing, exactly, for every pipe, script and outcome of the send. |
| PipeAnswers.ConsumerEventFlagsExactly | src/filezilla/pipe.cpp:165-207 | Likewise after a consumer event: who is waited for, by the consumer's last answer, the buffer and who is attached. |
| PipeAnswers.AdderEndsExactly | src/filezilla/pipe.cpp:210-280 | From the first answer of the adder that is no success: whether the event completes the pipe and with what, or else buffer, deferred error and flag. |
| PipeAnswers.GoodEventAdds | src/filezilla/pipe.cpp:217-245 | If all answers are successes, the bytes of all rounds are in the buffer, in order. |
| PipeAnswers.GoodEventConsumes | src/filezilla/pipe.cpp:285-309 | If all answers of the consumer are, it has taken as much from the head of the buffer as it wanted, as far as there was enough. |
| PipeAnswers.ConsumerEndsExactly | src/filezilla/pipe.cpp:282-310 | A consumer event completes the pipe iff it carries an error or the first answer that is no success is neither EAGAIN nor ENODATA; ECANCELED is reported as no error. |
| PipeAnswers.LonelyAdderFails | src/filezilla/pipe.cpp:220-236 | Without a consumer an adder event ends in EINVAL, unless the adder has nothing to add. |
| PipeAnswers.CompletedIsDetached | src/filezilla/pipe.cpp:116-130 | Whatever completes the pipe leaves nobody attached and the buffer empty. |
| PipeAnswers.NewConsumer | src/filezilla/pipe.cpp:62-83 | A new consumer starts without an error and is waited for iff its first event was sent; the rest of the pipe stays. |
| PipeAnswers.NewAdder | src/filezilla/pipe.cpp:39-60 | A new adder starts without an error, and nobody waits for it if it replaces another. |
| Pipe.Pipe.SetAdder | src/filezilla/pipe.cpp:39-60 | Detaching or replacing the adder resets its flag and error; with the same adder only the end-of-file policy is set. |
| Pipe.Pipe.SetConsumer | src/filezilla/pipe.cpp:62-83 | Detaching or replacing the consumer resets its flag and error, and a new one is sent its first event; the same one changes nothing. |
| Pipe.Pipe.Done | src/filezilla/pipe.cpp:116-130 | Detaches both ends, empties the buffer and reports. |
| Pipe.Pipe.AddToBuffer | src/filezilla/pipe.cpp:210-280 | The bounded adder loop, with every way out of it. |
| Pipe.Pipe.ConsumeBuffer | src/filezilla/pipe.cpp:282-310 | The bounded consumer loop, with every way out of it. |
| Pipe.Pipe.OnAdderEvent | src/filezilla/pipe.cpp:132-163 | Flags, errors, buffer, history and completions after the handler of adder events are those of the model, for every script of answers. |
| Pipe.Pipe.OnConsumerEvent | src/filezilla/pipe.cpp:165-207 | Likewise for the handler of consumer events; which end it wakes is in `PipeModel.ConsumerEventStaysAwake` and `PipeAnswers.ConsumerEventFlagsExactly`. |
| IntrusiveList.InsertBefore | src/filezilla/intrusive_list.hpp:184-191 | The four writes turn the ring of a sequence into the ring of that sequence with the node inserted. |
| IntrusiveList.Unlink | src/filezilla/intrusive_list.hpp:18-24 | The two writes turn it into the ring of the sequence without the node; the node's own links stay. |
| IntrusiveList.SpliceBefore | src/filezilla/intrusive_list.hpp:252-256 | The four writes join two rings at any position. |
| IntrusiveList.List.Insert | src/filezilla/intrusive_list.hpp:184-198 | Inserts into the sequence at that position and keeps `next` and `prev` inverse on one ring. |
| IntrusiveList.List.Erase | src/filezilla/intrusive_list.hpp:205-210 | Removes that element of the sequence and returns what came next. |
| IntrusiveList.List.PushBack | src/filezilla/intrusive_list.hpp:212-215 | Appends. |
| IntrusiveList.List.PushFront | src/filezilla/intrusive_list.hpp:217-220 | Prepends. |
| IntrusiveList.List.PopFront | src/filezilla/intrusive_list.hpp:222-225 | Drops the first element; nothing happens on an empty list. |
| IntrusiveList.List.PopBack | src/filezilla/intrusive_list.hpp:227-230 | Drops the last element; nothing happens on an empty list. |
| IntrusiveList.List.Splice | src/filezilla/intrusive_list.hpp:242-257 | Inserts the other sequence before the position and empties the other list, unless that has exactly one node, which is left alone. |
| IntrusiveList.List.Clear | src/filezilla/intrusive_list.hpp:259-262 | Empties the list without touching its nodes. |
| IntrusiveList.List.Move | src/filezilla/intrusive_list.hpp:62-66 | The move constructor takes over the sequence, except of one node. |
| IntrusiveList.List.MoveAssign | src/filezilla/intrusive_list.hpp:68-74 | Move assignment appends the other sequence, except of one node. |
| IntrusiveList.List.Walk | src/filezilla/intrusive_list.hpp:98-102 | Going along `next` yields exactly the sequence and terminates. |
| IntrusiveList.List.WalkBack | src/filezilla/intrusive_list.hpp:104-108 | Going along `prev` yields it in reverse. |
| Escaping.ReplaceSubstrings | src/filezilla/string.hpp:21-27 | Replacement from left to right, not overlapping, without looking at what was put in. |
| Escaping.Escape | src/filezilla/string.hpp:16-30 | The sequence of replacements: escape string first, then the map in order. |
| Escaping.Unescape | src/filezilla/string.hpp:32-95 | The loop over escape strings, for an empty map. |
| Escaping.EscapeRoundTrip | src/filezilla/string.hpp:16-95 | With a one-character escape string unescaping undoes escaping, for every string. |
| Escaping.LongEscapeIsLost | src/filezilla/string.hpp:44-91 | With a longer one that occurs in the string, the result is longer than the string. |
| Escaping.UnescapeUndoesExactly | src/filezilla/string.hpp:16-95 | Unescaping undoes escaping iff the escape string is one character or does not occur. |
| EscapeMap.EscapedByChar | src/filezilla/string.hpp:16-30 | With at most one character to escape with and a map of other, different characters, no one of which is in what is put in before its turn, escaping goes character by character: doubled, escaped code, or unchanged. |
| Escaping.Join | src/filezilla/string.hpp:178-194 | Appending prefix, string and separator and cutting off the last separator puts separators between the prefixed strings, empty strings included. |
| Csv.CopyAsCsv | src/gui/serverlogger.cpp:399-410 | The text that is copied is rows on lines, of quoted cells with doubled quotes, with commas between them. |
| Csv.CsvRoundTrip | src/gui/serverlogger.cpp:403-407 | A reader after section 2 of RFC 4180 reads every table of non-empty rows back, cell by cell, whatever the cells contain. |
| Csv.CsvRoundTripExactly | src/gui/serverlogger.cpp:403-407 | It reads a table back iff the table and its rows are non-empty. |
| Html.EncodedIsSubstitution | src/filezilla/string.hpp:237-249 | Five replacements one after the other are one simultaneous substitution. |
| Html.Encode | src/filezilla/string.hpp:237-249 | `html_encoded` computes that substitution. |
| Html.HtmlRoundTrip | src/filezilla/string.hpp:237-249 | Decoding the entities gives the string back, and the encoded text contains no markup character. |
| ColumnLayout.VisitsEachOnce | src/gui/fluidcolumnlayoutmanager.cpp:253-266 | From whatever column a visit starts, it takes every column with a weight exactly once and no other. |
| ColumnLayout.OrderTurns | src/gui/fluidcolumnlayoutmanager.cpp:266 | The next call takes the same columns in the same order turned by one. |
| ColumnLayout.OrderWeighs | src/gui/fluidcolumnlayoutmanager.cpp:251 | The visited columns carry the accumulated weight, from any start. |
| ColumnLayout.GoesRight | src/gui/fluidcolumnlayoutmanager.cpp:253-266 | A visit goes to the right from its start and once around. |
| ColumnLayout.RoundsToNearest | src/gui/fluidcolumnlayoutmanager.cpp:272 | A share is rounded to the nearest integer, halves away from zero. |
| ColumnLayout.ShareBounds | src/gui/fluidcolumnlayoutmanager.cpp:272 | A share has the sign of the width, does not exceed it, and is all of it for the last column. |
| ColumnLayout.WidthsChange | src/gui/fluidcolumnlayoutmanager.cpp:268-286 | Every visited column ends with its old width plus its change and at least its minimum; unvisited and unchanged ones are not touched. |
| ColumnLayout.StartsFrom | src/gui/fluidcolumnlayoutmanager.cpp:271 | The dragged column ends with the width it is dragged to plus its change, every other one with the width it had plus its change. |
| ColumnLayout.DraggedWidthIsIgnored | src/gui/fluidcolumnlayoutmanager.cpp:268-286 | The width that the dragged column had has no influence on any other column, nor on any share. |
| ColumnLayout.DraggedCase | src/gui/fluidcolumnlayoutmanager.cpp:271 | Two columns of 100, the first dragged to 140, its minimum, in a window of 200, end with 100 (still to be set) and 60. |
| ColumnLayout.Balance | src/gui/fluidcolumnlayoutmanager.cpp:275-282 | The changes add up to the width less what is left, plus twice what the clamped columns grew by. |
| ColumnLayout.ClampingMissesBy | src/gui/fluidcolumnlayoutmanager.cpp:268-288 | For all inputs the sum is the width, plus what the last column cannot give of its share, less twice what the columns in front of it gave up to their minimums; it is right iff these two are equal. |
| ColumnLayout.NothingGivenExactly | src/gui/fluidcolumnlayoutmanager.cpp:275-278 | Columns that had their minimums give up nothing against the balance iff all but the last fit. |
| ColumnLayout.SharesAddUp | src/gui/fluidcolumnlayoutmanager.cpp:268-288 | Without minimums the rounded shares have the sign of the width and add up to it exactly. |
| ColumnLayout.UnclampedExactly | src/gui/fluidcolumnlayoutmanager.cpp:275-278 | No column is clamped iff every column can take that share, and then it changes by it. |
| ColumnLayout.DistributesAll | src/gui/fluidcolumnlayoutmanager.cpp:247-289 | If all shares fit, the changes have the sign of the width and add up to exactly it. |
| ColumnLayout.GrowingFits | src/gui/fluidcolumnlayoutmanager.cpp:275-278 | Width handed out to columns that have their minimums always fits. |
| ColumnLayout.ClampingOvershoots | src/gui/fluidcolumnlayoutmanager.cpp:275-278 | When the columns had their minimums: if all but the last fit, the sum is right iff the last one can give its share; if the last one can, the sum is at most the width, and right iff all the others fit; fitting is a condition on the inputs, in which a column at its minimum takes nothing. |
| ColumnLayout.ClampedShareIsLost | src/gui/fluidcolumnlayoutmanager.cpp:275-278 | Two columns asked for 100 shrink by 120; two others, both stopped, by exactly 100; a single one by 10. |
| ColumnLayout.Layout.FindNextWeighted | src/gui/fluidcolumnlayoutmanager.cpp:253-264 | The closure with its captured count goes through the order and takes its count back at the end. |
| ColumnLayout.Layout.DistributeWidth | src/gui/fluidcolumnlayoutmanager.cpp:247-289 | The loop leaves the widths that the distribution over the order from the old start denotes, and the new start column; from which widths it starts is in `StartsFrom`. |
| OrderedMap.InsertFinds | src/gui/sessionlist.cpp:450-453 | `emplace` of a new key keeps the order of keys and changes what is found for that key only. |
| OrderedMap.UpdateFinds | src/gui/sessionlist.cpp:570 | So does writing through `operator[]`. |
| OrderedMap.EraseFinds | src/gui/sessionlist.cpp:553 | So does `erase`. |
| SessionModel.StepCounts | src/gui/sessionlist.cpp:446-605 | Every operation changes the count as it changes the rows, except for an unknown transfer reported in a session that has others. |
| SessionModel.CountLaw | src/gui/sessionlist.cpp:446-605 | After every run the count is the rows less the uncounted ones since the last clearing, modulo 2^64. |
| SessionModel.CountIsRightExactly | src/gui/sessionlist.cpp:622-627 | The count is the number of rows iff there was no uncounted one (modulo 2^64). |
| SessionModel.CountWrapsAround | src/gui/sessionlist.cpp:472-487 | Four operations after which the list is empty and the count is the largest `size_t`. |
| SessionModel.MoreRowsExactly | src/gui/sessionlist.cpp:59-83 | There are as many rows as sessions iff no session has several transfers. |
| SessionModel.RunsStayInOrder | src/gui/sessionlist.hpp:52-63 | After every run sessions and transfers are ordered by id, and a session is found under its own id. |
| SessionModel.OnlyItsSession | src/gui/sessionlist.cpp:446-605 | An operation changes nothing but its session, which is added, removed or updated as it should be. |
| SessionModel.TransferAfter | src/gui/sessionlist.cpp:521-605 | What every operation on a transfer does to every transfer of the session: bytes written with the size, or bytes read, and no other field; opening leaves one that is there alone. |
| SessionModel.NamedUser | src/gui/sessionlist.cpp:509-519 | Setting the user's name sets that, and nothing else. |
| SessionModel.RowsAt | src/gui/sessionlist.cpp:59-84 | Which row shows which transfer of which session. |
| SessionList.RowIterator.Advance | src/gui/sessionlist.cpp:71-84 | The two cursors step to the next of the flattened rows. |
| SessionList.RowIterator.Current | src/gui/sessionlist.cpp:59-64 | The two cursors stand at the first of the rows to come; an idle session has one row. |
| SessionList.List.Add | src/gui/sessionlist.cpp:446-471 | Adds a session unless its id is taken, and counts its row. |
| SessionList.List.Remove | src/gui/sessionlist.cpp:472-487 | Removes a session and the number of its rows, modulo 2^64. |
| SessionList.List.Clear | src/gui/sessionlist.cpp:489-497 | Forgets everything, the drift of the count included. |
| SessionList.List.EntryOpen | src/gui/sessionlist.cpp:521-543 | Inserts a new transfer and counts it unless it is the session's first; reports a missing session. |
| SessionList.List.EntryClose | src/gui/sessionlist.cpp:545-560 | Erases a transfer and takes its row off unless it was the last. |
| SessionList.List.SetEntryWritten | src/gui/sessionlist.cpp:562-583 | Updates the transfer, or silently inserts it. |
| SessionList.List.SetEntryRead | src/gui/sessionlist.cpp:585-605 | Likewise for reading. |
| SessionList.List.CacheHint | src/gui/sessionlist.cpp:245-290 | Caches exactly the rows asked for, up to the last; nothing if the first one is not below the number of sessions. |
| ServerLog.WriteShows | src/gui/serverlogger.cpp:372-389 | A new line comes last and pushes out the oldest if there is no room. |
| ServerLog.ShowsNewest | src/gui/serverlogger.cpp:372-397 | With the size set once, every run of writing and clearing shows exactly the newest lines that fit and never leaves the vector. |
| ServerLog.RowIsThere | src/gui/serverlogger.cpp:155-156 | The row lookup finds the rows from the oldest to the newest. |
| ServerLog.ResizeSafeExactly | src/gui/serverlogger.cpp:357-370 | Changing the size is safe iff the ring begins in its first slot, or the new size lies between the beginning and the old size, or is 0. |
| ServerLog.GuardedRunIsSafe | src/gui/serverlogger.cpp:357-397 | Over every run in which each change of size meets that guard, no row and no line is ever outside of the vector. |
| ServerLog.UnguardedGoesWrong | src/gui/serverlogger.cpp:357-397 | After any other change of size, lines written next lead to a row or a line outside of it. |
| ServerLog.ResizeShows | src/gui/serverlogger.cpp:357-370 | What is shown after a safe change: the oldest lines, or the oldest and the newest without those between. |
| ServerLog.Logger.Log | src/gui/serverlogger.cpp:372-389 | Writes the line, without its control characters if so asked, as the ring says. |
| ServerLog.Logger.SetMaxNumberLines | src/gui/serverlogger.cpp:357-370 | Cuts off the end of the vector and leaves the beginning alone. |
| ServerLog.Logger.RowText | src/gui/serverlogger.cpp:150-175 | Yields what is in the row's slot, which is the row's line while the ring is well formed, or nothing for a row that is not there. |
| ServerLog.PrintableByChar | src/filezilla/string.hpp:220-228 | Character by character, in order and as often as it is there: those below the blank but tabs, and DEL, are dropped. |
| ServerLog.Printable | src/filezilla/string.hpp:220-228 | Keeps exactly the characters that are no control characters. |

## Left out

- PORT and EPRT address formats, the host name of an address, `version_info` and the other small
  value types: easy members.
- Threads, mutexes and the memory model: a body under a lock is one atomic step; the clock and the
  random start port are inputs.
- The HTTP client, JSON, JWS signing, certificate requests and the challenger: replies are arbitrary
  records of what the code looks at, signing is a record of the address and the nonce, and whether
  a document can be signed or a token be served is an input.
- Errors that the HTTP client might report from inside `perform`: replies come after the call.
- HTTP redirects, and nonces on error replies, which the code ignores too.
- AcmeTheorems.StackDiscipline: does not speak of `hosts_[0]`, which goes into the request for the
  certificate and is there iff the call names a host.
- PortTable.PortManager.Release: takes the entry under the lock and the flag behind it in one step;
  in between the flag still keeps everybody else from the port.
- PortRandomizer.Randomizer.DoGetPort: is proved for a table that nobody else changes meanwhile;
  interleaved rounds are those of `PortLeases`.
- PipeModel.NoLostWakeup: takes it that sends succeed and that an adder reporting success has left
  something in the buffer; `PipeModel.IdleAdderIsLost` shows what happens otherwise.
- Pipe callbacks that change the pipe from inside `add_to_buffer` in ways other than replacing an
  end, and the event loop itself: the answers of both ends and the success of sends are inputs.
- Escaping.Unescape: has no map, and so none of its placeholders that match between two characters
  or at the beginning only; an empty escape string would never come to an end.
- Line breaks other than the one that the CSV copy writes.
- ColumnLayout.ShareBounds: shares are exact quotients before they are rounded; the error of the
  floating-point division is not modelled.
- ColumnLayout.Layout.DistributeWidth: does not store the widths in the settings; the layout of
  columns that are being dragged is not modelled either.
- SessionList.List.SetEntryWritten: does not keep times and transfer rates.
- SessionList.List.SetEntryRead: likewise.
- The menus, events and timer of the session list; `DelayedUpdate`.
- Conversions between string types.
- HostOrder.CircleExactly: covers cycles of two addresses and one wildcard; for the rest see
  `TransitiveExactly`.
- SessionList.List.CacheHint: the initial cache bounds, which name a row before any was cached, are
  not read by the model.
- Signed overflow of column weights and widths.
