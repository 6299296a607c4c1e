# A verified model of iproute2's hard core

This project models the parts of iproute2 that do the most with bytes, buffers and state, and proves
what they promise for every input and every run:

- `ss`: the socket filter interpreter, the compiler from filter trees to INET_DIAG bytecode, what the
  kernel makes of its bytes, and the service-name cache;
- `libnetlink`: attribute building and parsing, and the request/reply matching of talks and dumps;
- `ip route`: multipath nexthop lists, prefix selection, and the flush loop;
- `netem`: the construction of inverse distribution tables;
- `tc`: folding and printing the bit options of the flow classifier;
- `arpd`: the neighbour database; `ll_map`: the interface cache; `rtacct`: the realm counters;
- `utils`: prefix comparison, netmask lengths and hexadecimal byte strings.

Code that works in place is modelled in place: classes with arrays and fields, linked nodes, loops.
Each such method is proved against a function of the old state, and the theorems are about those
functions. Machine widths are explicit: 8-, 16- and 32-bit fields are cut, counters wrap, `char`
lengths are signed, and memory is little-endian.

Where a promise does not hold of the code, the code is kept, a lemma gives a failing input, and the
exact condition is proved:

- The bytecode compiler keeps operand lengths in a signed `char`. It produces the intended program if
  and only if every operand of `and`, `or` and `not` takes at most 127 bytes
  (`FilterCompiler.CompileExact`). Seven IPv4 hosts under `not` give no program; thirteen take 256 bytes,
  which is a length of 0, and their negation rejects every socket. That condition is exact for the bytes
  and sufficient for the verdict. For a host chain under `not` the verdict itself is right, for every
  outcome of the tests, if and only if the number of hosts is 1 modulo 64 or 1 to 6 modulo 16384 (IPv4
  head), or 1 modulo 8 or 1 to 4 modulo 2048 (IPv6 head): `LongChains.NotHostsExact`. With these numbers it
  is also right beside another operand of `and` and `or` (`LongChains.HostsBeside`).
- Each block of a compiled host chain copies the first host. This is right for every socket if and only
  if the head covers every later host, counting that an IPv4 rule also matches mapped IPv6 addresses
  (`HostChains.HeadSuffices`); `HostChains.TwoHosts` is a chain for which it does not,
  `HostChains.MappedTwin` one of different hosts for which it does.
- A port bound is cut to 16 bits in the program. The kernel then asks what the interpreter asks, for every
  socket, if and only if the bound has 16 bits or the cut one accepts the same ports
  (`KernelFilter.PortExact`); `dport >= 70000` accepts nothing and its program the ports from 4464 on
  (`KernelFilter.LargePort`).
- A tree of attributes is parsed back if and only if every length in it fits 16 bits
  (`Attributes.WidthExact`); in `Attributes.NestOverflows` two narrow attributes overflow their nest.
- The nexthop builder keeps its two lengths together if and only if every gateway length is a multiple of
  four (`Nexthops.BuilderInvariantExact`). With other gateways, such as the two-byte ones of DECnet, a list
  is still walked in full if every clause but the last needs less than four bytes of padding and the last
  less than eight; it is then shown as it was meant if and only if no clause has its first realm end, padding
  included, beyond the length its nexthop counts (`Nexthops.MultipathRoundTrip`). `Nexthops.ViaThenRealms`
  loses a realm that way. In `Nexthops.NextGatewayLost` a clause with two DECnet gateways needs four bytes,
  and the nexthop behind it loses its gateway.
- `rtacct` tracks true growth if and only if no counter grows by 2^32 or more between two samples and the
  total stays below 2^64 (`RtAcct.TracksGrowth`, `RtAcct.WrapMissed`), and an incremental row shows the change if and only if none
  of the realm's four counters went back (`RtAcct.ReportExact`, `RtAcct.BackOnce`). Counters tracked so are
  never seen to go back, and the printed increments sum to their true growth (`RtAcct.PrintsGrowth`).
- `hexstring_n2a` leaves a text that ends in a colon, and an empty one, without a terminator, so that it
  reads back as written if and only if the buffer had one there (`HexText.FilledReads`).
- `arpd` loses a newly learned address exactly when the stored one is another and the memory at the new one
  starts with it (`Arpd.StoreLearnsExact`, `Arpd.PrefixKept`).

`dafny verify dfyconfig.toml` checks the project.

## Model

| member | source | states |
|---|---|---|
| SocketFilter.RunFilter | iproute2/misc/ss.c:702-792 | the short-circuit recursion and the loop over a host chain decide exactly the boolean meaning of the tree |
| SocketFilter.PortBounds | iproute2/misc/ss.c:761-780 | a port bound accepts more the looser it is, the two bounds at a port accept that port alone, and each is the negation of the other's neighbour |
| SocketFilter.AnyAddress | iproute2/misc/ss.c:729-760 | a host condition without address bits asks for its port alone, and for nothing if that is -1 |
| SocketFilter.OneHost | iproute2/misc/ss.c:670-760 | a whole IPv4 host accepts exactly the sockets with its port at its address, plain or mapped to IPv6 |
| Bytecode.NeverStuck | iproute2/misc/ss.c:808-930 | well-formed code accepts or rejects from every landing point, for every outcome of the tests |
| Bytecode.WellFormedTargets | iproute2/misc/ss.c:808-930 | every jump goes strictly forward to an operation, the end, or four past it; `yes` fits 8 bits, and `no` fits 16 in programs of up to 65531 bytes |
| Bytecode.MachineRuns | iproute2/include/linux/inet_diag.h:52-63 | the machine on raw bytes follows the operations one for one, from every landing point |
| Bytecode.BytesAt | iproute2/misc/ss.c:808-930 | the bytes of well-formed code read back as that code |
| Bytecode.Patch | iproute2/misc/ss.c:794-806 | the in-place walk over a buffer gives the patched bytes or reports the abort |
| Bytecode.PatchRelocates | iproute2/misc/ss.c:794-806 | on well-formed code the walk never aborts, relocates exactly the rejecting exits, and touches no byte outside the code |
| Bytecode.RelocateRetargets | iproute2/misc/ss.c:794-806 | a relocated jump to the rejecting exit moves by the relocation; every other jump keeps its target |
| Bytecode.ExecRelocated | iproute2/misc/ss.c:890-902 | after relocation acceptance of the first program falls into the second, rejection leaves both |
| FilterCompiler.ChainMeaning | iproute2/misc/ss.c:817-856 | blocks and jumps of a chain of any conditions are well formed and compute their disjunction |
| FilterCompiler.HostMeaning | iproute2/misc/ss.c:817-856 | a host chain's code has the precomputed size and decides the condition of its first host |
| FilterCompiler.EmitMeaning | iproute2/misc/ss.c:808-930 | for every filter and every leaf predicate the intended program is well formed, ends at its length when the filter holds and four past it otherwise |
| FilterCompiler.CompileExact | iproute2/misc/ss.c:890-926 | the bytes produced with `char` lengths are the intended program if and only if every operand takes at most 127 bytes |
| FilterCompiler.CompiledLength | iproute2/misc/ss.c:890-926 | the compiler never produces more than the intended size, and that much only when every operand fits |
| FilterCompiler.CompiledVerdict | iproute2/misc/ss.c:808-930 | when every operand fits, the byte machine on the compiled program gives the verdict of the filter with each chain tested at its head |
| HostChains.HeadSuffices | iproute2/misc/ss.c:670-760 | testing only the first host agrees with the interpreter on every socket if and only if everything a later host matches lies under the first |
| HostChains.MatchPieces | iproute2/misc/ss.c:670-688 | `inet2_addr_match` accepts exactly the addresses under the rule and, for IPv4 rules and IPv6 sockets, under its mapped form |
| HostChains.MappedTwin | iproute2/misc/ss.c:670-688 | an IPv4 host covers the same host in mapped form |
| HostChains.TwoHosts | iproute2/misc/ss.c:837-848 | an IPv4 host does not cover another one, and misses its sockets |
| FilterCompiler.CompilerPreservesMeaning | iproute2/misc/ss.c:702-930 | the compiled bytecode accepts exactly the sockets the interpreter accepts, when operands fit and heads cover their chains |
| KernelFilter.KernelAgrees | iproute2/misc/ss.c:702-930 | the program's bytes, read by the operation numbers and the layout of host conditions alone, accept exactly the sockets the interpreter accepts, when operands fit, heads cover their chains and port bounds can be asked |
| KernelFilter.HostAnswers | iproute2/misc/ss.c:837-848 | family, prefix length, port and address stored in a block ask of every socket what the interpreter asks for the first host |
| KernelFilter.PortExact | iproute2/misc/ss.c:857-888 | the stored port bound asks of every socket what the interpreter asks if and only if it has 16 bits, or is a negative multiple of 2^16 as a lower bound, or one below a multiple of 2^16 as an upper one |
| KernelFilter.LargePort | iproute2/misc/ss.c:857-863 | a lower bound of 70000 accepts nothing, and its program the ports from 4464 on |
| FilterCompiler.ThirteenHostsVanish | iproute2/misc/ss.c:916-926 | thirteen IPv4 hosts under `not` compile to a program that rejects everything |
| FilterCompiler.SevenHostsOverflow | iproute2/misc/ss.c:916-926 | seven IPv4 hosts under `not` have a negative length and compile to nothing |
| LongChains.NotHostsExact | iproute2/misc/ss.c:817-926 | the program of `not` over a host chain gives the right verdict for every outcome of the tests if and only if the number of hosts is 1 modulo 64 or 1 to 6 modulo 16384, or for an IPv6 head 1 modulo 8 or 1 to 4 modulo 2048 |
| LongChains.TrimmedVerdict | iproute2/misc/ss.c:808-926 | a filter with longer operand chains has the right verdict if it fits once every chain whose cut length ends behind a whole block, with the jumps of the shorter chain, is replaced by that chain |
| LongChains.HostsBeside | iproute2/misc/ss.c:817-926 | a chain of such a number of hosts is right as either operand of `or` and `and` |
| FilterCompiler.HostLength | iproute2/misc/ss.c:826-834 | the first loop computes the size the second one fills |
| FilterCompiler.CompileHost | iproute2/misc/ss.c:836-855 | the second loop fills exactly the allocated buffer with the chain's blocks and jumps |
| FilterCompiler.JoinAnd | iproute2/misc/ss.c:890-902 | two programs are joined by patching the first in the new buffer |
| FilterCompiler.JoinJump | iproute2/misc/ss.c:903-926 | `or` and `not` put a jump behind the first program |
| FilterCompiler.CompileFilter | iproute2/misc/ss.c:808-930 | the recursive compiler returns a buffer with exactly the bytes of the C-width compilation, or none |
| ServiceCache.Cache.Resolve | iproute2/misc/ss.c:582-634 | over every sequence of calls a name answered is the resolver's; while no allocation has failed the answer is the resolver's, whatever was asked before; the key stays cached and no other entry is lost |
| ServiceCache.Cache.Search | iproute2/misc/ss.c:602-609 | the loop finds the first entry of the bucket for the port and protocol |
| MessageBuffer.NetlinkMessage.AddAttr | iproute2/lib/libnetlink.c:554-571 | the buffer and `nlmsg_len` become those of the value model, or nothing changes and the error is returned |
| MessageBuffer.NetlinkMessage.AddNest | iproute2/lib/libnetlink.c:585-591 | the nest starts at the old tail, even when there was no room for it |
| MessageBuffer.NetlinkMessage.NestEnd | iproute2/lib/libnetlink.c:593-597 | only the nest's length field changes, to the distance from the nest to the tail |
| MessageBuffer.NetlinkMessage.AddNestCompat | iproute2/lib/libnetlink.c:599-607 | fixed part and empty nest are each added if they fit, whatever became of the other |
| MessageBuffer.NetlinkMessage.NestCompatEnd | iproute2/lib/libnetlink.c:609-616 | both length fields are closed, the outer one and that of the nest its old value leads to |
| MessageBuffer.ParseRtattr | iproute2/lib/libnetlink.c:653-664 | the table holds for every type the slot of the value model, and the deficit is the residue |
| Attributes.AddAttrStores | iproute2/lib/libnetlink.c:554-571 | header and payload stand at the old tail, and no byte before it changed |
| Attributes.BuildStores | iproute2/lib/libnetlink.c:554-616 | building any forest advances the tail by its size, writes nothing before the old tail, and stores every attribute at its place |
| Attributes.StoredLevel | iproute2/lib/libnetlink.c:653-692 | stored attributes are what the parser visits, at every depth, with no residue |
| Attributes.RoundTrip | iproute2/lib/libnetlink.c:554-692 | any tree of plain, nested and compat attributes with 16-bit lengths parses back level by level, byte for byte, for every fixed-part length |
| Attributes.BuildSucceeds | iproute2/lib/libnetlink.c:559-562 | all calls succeed if and only if the whole forest fits below the bound |
| MessageBuffer.ParseNestedCompat | iproute2/lib/libnetlink.c:681-692 | an error and no change for a payload shorter than the fixed part, an empty table without room for a nest, the nest's table otherwise |
| Attributes.PlainAsCompat | iproute2/lib/libnetlink.c:681-692 | which of the three a plain attribute is, by the length it was built with |
| Attributes.FirstShown | iproute2/lib/libnetlink.c:653-664 | of stored attributes a slot shows the first payload of its type |
| Attributes.SlotIsFirst | iproute2/lib/libnetlink.c:656-660 | a slot is the first visited attribute of its type, and empty exactly when there is none |
| Attributes.LevelSlot | iproute2/lib/libnetlink.c:653-664 | on a parsed level slot `t` shows the first attribute of type `t` that was built |
| Attributes.WidthExact | iproute2/lib/libnetlink.c:554-692 | a built tree of any attributes is parsed back if and only if every length in it fits its 16-bit field |
| Attributes.NestOverflows | iproute2/lib/libnetlink.c:593-597 | two attributes that fit their own lengths overflow that of their nest and are not parsed back |
| Netlink.RunFilterShows | iproute2/lib/libnetlink.c:219-248 | a filter's pass that does not fail shows everything before DONE and ends the dump exactly at a DONE |
| Netlink.RunFiltersShow | iproute2/lib/libnetlink.c:215-252 | the same for all the filters of a call over one datagram |
| Netlink.RunFilterFails | iproute2/lib/libnetlink.c:219-248 | a filter's pass fails exactly at the first message before DONE that is an error or that the filter rejects, with that code |
| Netlink.RunFiltersFail | iproute2/lib/libnetlink.c:215-252 | a datagram fails exactly at that message of the first filter that has one; earlier filters saw everything before DONE, later ones nothing |
| Netlink.TalkReadExact | iproute2/lib/libnetlink.c:336-383 | a talk ends exactly at the first message that can end it: any if an answer is wanted, else an error message, which with code 0 is an acknowledgement |
| Netlink.ReadForFilter | iproute2/lib/libnetlink.c:216-248 | the loop over one datagram skips foreign messages and stops at DONE, an error, or a negative verdict |
| Netlink.ReadTalk | iproute2/lib/libnetlink.c:336-383 | the loop of a talk decides by the first message addressed to the call that ends it |
| Netlink.Rtnl.RunDump | iproute2/lib/libnetlink.c:155-263 | the request carries the next number; the dump ends well if and only if a DONE with it comes and no message with it before that fails, and fails if and only if one does, with its code; what every filter was shown, and how far `seq` went |
| Netlink.Rtnl.Talk | iproute2/lib/libnetlink.c:277-393 | the request carries the next number, and the talk ends at the first message with it that can end it, or has read all datagrams without one |
| Netlink.Rtnl.ReadDatagram | iproute2/lib/libnetlink.c:215-252 | the deletes sent inside a dump advance `seq` and leave the number the replies are matched against |
| Netlink.SeqnoInjective | iproute2/lib/libnetlink.c:301 | fewer than 2^32 draws never give the same number twice, wherever the counter started |
| Netlink.StepKeepsInv | iproute2/lib/libnetlink.c:92-393 | every step of a talk or dump keeps the handle's invariant |
| Netlink.RunsAreSound | iproute2/lib/libnetlink.c:92-393 | over every run of talks, dumps and deletes inside dumps, a talk ends on the first reply to its own request that can end it; a successful dump has shown every filter exactly its own replies before DONE, in order, and none failed; a failed one stopped at its own first failing reply |
| Nexthops.AddHopsStores | iproute2/ip/iproute.c:671-703 | if every clause but the last needs less than four bytes of padding, every nexthop lies where the previous one ends and `rta_len` is the end of the last |
| Nexthops.HopShown | iproute2/ip/iproute.c:564-621 | any stored nexthop is shown with its last interface and weight, its flag, first gateway and first realm, but for a realm that, padding included, ends beyond the nexthop's length |
| Nexthops.MultipathRoundTrip | iproute2/ip/iproute.c:564-703 | a list that fits, with less than four bytes of padding in every clause but the last and less than eight in the last, is walked in order and in full, and shown as it was meant if and only if no clause loses its realm |
| Nexthops.MultipathFits | iproute2/ip/iproute.c:671-703 | such a list is built if and only if its nexthops and their padded attributes take at most 1020 bytes |
| Nexthops.AlignedKeepsAll | iproute2/ip/iproute.c:628-669 | clauses whose gateways are all a multiple of four long need no padding and lose nothing |
| Nexthops.ViaThenRealms | iproute2/ip/iproute.c:564-703 | a two-byte gateway and then a realm: the walk of the built list shows the nexthop without its realm |
| Nexthops.NextGatewayLost | iproute2/ip/iproute.c:564-703 | two two-byte gateways in a clause: the walk shows the nexthop behind it without its gateway when the buffer held no attribute header there |
| Nexthops.BuilderInvariantExact | iproute2/ip/iproute.c:628-669 | `rta_len` outruns the nexthop by exactly the padding of its gateways, so the two agree if and only if every gateway length is a multiple of four |
| Nexthops.Builder.AddSubAttr | iproute2/lib/libnetlink.c:635-651 | the attribute is appended at the aligned length and the nexthop's own length grows without padding |
| Nexthops.Builder.ParseOne | iproute2/ip/iproute.c:628-669 | the argument loop leaves the buffer and lengths of the value model |
| Nexthops.Builder.ParseAll | iproute2/ip/iproute.c:671-703 | the clause loop leaves the buffer and lengths of the value model |
| Nexthops.PrintMultipath | iproute2/ip/iproute.c:564-621 | the loop shows what the walk defines, and never ends exactly on a nexthop of length 0 |
| Prefixes.MatchAgrees | iproute2/lib/utils.c:455-481 | the comparison returns 0 if and only if the first `bits` bits agree, for any number of words |
| Prefixes.InsideExact | iproute2/ip/iproute.c:169-215 | one prefix's addresses all lie under another if and only if it is at least as long and agrees with it |
| Prefixes.SelectsExact | iproute2/ip/iproute.c:169-215 | `root P match Q` with any two prefixes selects exactly the routes inside P that contain Q |
| Prefixes.RootExact | iproute2/ip/iproute.c:169-215 | `root P` selects exactly the routes whose address set is contained in P's |
| Prefixes.MatchExact | iproute2/ip/iproute.c:169-215 | `match P` selects exactly the routes whose address set contains P's |
| Prefixes.ExactExact | iproute2/ip/iproute.c:1244-1260 | `exact P` selects exactly the routes with P's address set |
| Prefixes.MaskToBits | iproute2/lib/utils.c:48-61 | the loop returns the length of a contiguous netmask, and -1 for exactly the other words |
| Flush.RewriteFields | iproute2/ip/iproute.c:319-323 | the delete request has the dump message's length and payload and its own type, flags and number |
| Flush.SplitPacked | iproute2/ip/iproute.c:313-326 | a batch cut at the fill mark splits by the length fields into exactly the packed messages |
| Flush.QueueKeeps | iproute2/ip/iproute.c:313-326 | queueing one message keeps the buffer invariant: fill mark within the buffer, nothing lost or repeated between batches |
| Flush.RoundSends | iproute2/ip/iproute.c:117-125 | the batches of a round, split by length, are exactly the selected messages in order as numbered delete requests, and `flushed` is their count |
| Flush.DeletePast | iproute2/ip/iproute.c:313-326 | a batch that names routes already reported leaves the rest of the dump as it was |
| Flush.DeleteFilters | iproute2/ip/iproute.c:1311-1345 | deleting selected routes never touches the others and takes one selected route each |
| Flush.Flusher.ReadDump | iproute2/ip/iproute.c:1312-1321 | a dump read message by message while its batches are carried out, and may make the kernel leave out routes, queues what arrives as any other dump and accounts for every selected route |
| Flush.Flusher.QueueRoute | iproute2/ip/iproute.c:313-326 | buffer, fill mark, count and sequence number after one selected message, with a batch sent first when it does not fit |
| Flush.Flusher.FlushRound | iproute2/ip/iproute.c:1312-1333 | the batches of a round carry exactly the selected messages that arrived; each takes one selected route, no other is touched, and a round without requests has seen every route |
| Flush.Flusher.FlushRoutes | iproute2/ip/iproute.c:1307-1345 | against a kernel that performs each delete as it comes and adds nothing the loop leaves exactly the routes not selected, after at most one dump more than there were selected routes, and by its second dump if dumps leave nothing out |
| DistTable.Cumulate | iproute2/netem/maketable.c:121-132 | in place, every cell becomes the sum up to it, and the total is returned |
| DistTable.Invert | iproute2/netem/maketable.c:134-156 | every entry is the value of the last cell placed there, or unset |
| DistTable.PlaceRounds | iproute2/netem/maketable.c:147-148 | a count falls at the place nearest to count times size by total, the even one of two |
| DistTable.ValueRounds | iproute2/netem/maketable.c:146-151 | the value of a cell is its distance from cell 200000 times 8192 by 50000, to the nearest integer and inside a short |
| DistTable.InverseExact | iproute2/netem/maketable.c:141-153 | an entry is the value of the last cell that falls there, and a gap exactly where none does |
| DistTable.LineExact | iproute2/netem/maketable.c:170-172 | a gap is filled with the line between its neighbours, rounded towards the one before |
| DistTable.InverseSorted | iproute2/netem/maketable.c:134-156 | for every histogram with positive total the set entries are in order and within a short |
| DistTable.PlaceEnds | iproute2/netem/maketable.c:145-153 | the last cell's place is the table size itself, one past the table |
| DistTable.Interpolate | iproute2/netem/maketable.c:158-180 | in place, every gap is filled from the set entries around it, never from filled ones |
| DistTable.FilledMonotone | iproute2/netem/maketable.c:158-180 | the filled table never decreases, keeps every set entry and stays within a short |
| DistTable.ProductFits | iproute2/netem/maketable.c:158-180 | at up to 4096 entries the interpolation's product fits a 32-bit int |
| DistTable.MakeTable | iproute2/netem/maketable.c:121-180 | the three steps give the inverse table of the cumulative counts, stated in integers: values where cells fall, lines between; it never decreases and stays within a short |
| DistTable.InverseUnique | iproute2/netem/maketable.c:121-180 | cumulative counts have one such table |
| FlowBits.FoldApplies | iproute2/tc/f_flow.c:92-96 | `(v & mask) ^ xor` equals applying the and, or and xor options one by one |
| FlowBits.FoldCanonical | iproute2/tc/f_flow.c:92-96 | two option lists fold to the same pair if and only if they do the same to every value |
| FlowBits.PrintedParses | iproute2/tc/f_flow.c:311-326 | re-parsing the at most three printed options gives back exactly the mask and xor |
| FlowBits.PrintPreserves | iproute2/tc/f_flow.c:166-186 | printing what was parsed never changes what the options do |
| FlowBits.ParseBitOps | iproute2/tc/f_flow.c:166-186 | the option loop ends with a pair that has the effect of all options in order |
| FlowBits.PrintBitOps | iproute2/tc/f_flow.c:311-326 | what is printed parses back to the pair |
| Arpd.NegEntryFields | iproute2/misc/arpd.c:289-297 | marker, count and stamp of a negative entry are read back, also after the count was bumped |
| Arpd.NegEntryExpires | iproute2/misc/arpd.c:55-59 | a negative entry is valid for exactly the timeout after its stamp, across wraps of the clock |
| Arpd.ProbesThenSilence | iproute2/misc/arpd.c:363-385 | after a failure every question within the timeout is one more probe, up to `active_probing`, and then none |
| Arpd.PacketTeaches | iproute2/misc/arpd.c:499-532 | an ARP request or reply put together from its parts teaches the sender's hardware address for the sender's IP address, unless that is 0 |
| Arpd.PacketParts | iproute2/misc/arpd.c:499-513 | every packet that teaches something is put together so |
| Arpd.PacketMemory | iproute2/misc/arpd.c:522-523 | a stored address is compared with the packet from the sender's hardware address on |
| NeighWire.NeighRead | iproute2/misc/arpd.c:300-345 | a kernel message put together from headers and attributes is read back field by field, with the first destination and the first address |
| Arpd.KernelSays | iproute2/misc/arpd.c:300-427 | what such a message says by its numbers: 30 as a request invalidates or asks, 28 as a notification invalidates or teaches, all others nothing |
| NeighWire.AnswerTells | iproute2/misc/arpd.c:265-287 | the bytes of an answer are read as a stale neighbour with the destination and the address |
| NeighWire.AnswerSome | iproute2/misc/arpd.c:265-287 | an address fits the answer if and only if it has at most 244 bytes |
| Arpd.StepViews | iproute2/misc/arpd.c:300-427 | one event does to every key what the event alone says: learn, forget, or nothing |
| Arpd.AnswersExact | iproute2/misc/arpd.c:300-427 | after every run of kernel and ARP events, a question is answered exactly with the last address learned for its key and not invalidated since, and no marked entry is answered |
| Arpd.CountsBounded | iproute2/misc/arpd.c:378-394 | over every run, and for every value of `active_probing`, no negative entry counts more probes than it allows |
| Arpd.StoreLearnsExact | iproute2/misc/arpd.c:413-424 | a learned address is stored unless the positive entry is another one and the memory at the new address starts with it |
| Arpd.PrefixKept | iproute2/misc/arpd.c:413-424 | a longer address is not learned over a stored proper prefix of it |
| Arpd.HandleIf | iproute2/misc/arpd.c:103-114 | the loop accepts every interface without a list, and exactly the listed ones otherwise |
| Arpd.Daemon.Update | iproute2/misc/arpd.c:343-425 | get, put and delete leave the database of the step, with its answer |
| Arpd.Daemon.DoNeigh | iproute2/misc/arpd.c:322-427 | the kernel is told the last learned, still valid address for its question, and nothing otherwise; every key then holds what the message says |
| Arpd.Daemon.DoOneRequest | iproute2/misc/arpd.c:300-427 | the same from the bytes of the message; one shorter than its headers is an error and changes nothing |
| Arpd.Daemon.GetArpPkt | iproute2/misc/arpd.c:480-533 | every key then holds what the packet says |
| LinkMap.Cache.Find | iproute2/lib/ll_map.c:66-69 | the chain walk finds the node of a known index, or the end of its chain |
| LinkMap.Cache.AppendFirst | iproute2/lib/ll_map.c:71-78 | a new node of an empty chain goes into the head slot and keeps all chains acyclic and in their buckets |
| LinkMap.Cache.AppendAfter | iproute2/lib/ll_map.c:71-78 | a new node of another chain goes behind its last node and keeps them so |
| LinkMap.Cache.Remember | iproute2/lib/ll_map.c:47-94 | the cache's map takes the message's record, or stays as it is when there is no memory for a new index |
| LinkMap.RememberAll | iproute2/lib/ll_map.c:47-94 | after any sequence of messages, with any allocations failing, the chains hold exactly the plain map of those messages |
| LinkMap.LinkRead | iproute2/lib/ll_map.c:47-66 | a link message put together from header and attributes is read back: device type, index, flags, first address and name; it is accepted exactly if it is RTM_NEWLINK with a name |
| LinkMap.SkippedAnywhere | iproute2/lib/ll_map.c:55-64 | messages of other types or without a name might as well not have come |
| LinkMap.LatestWins | iproute2/lib/ll_map.c:47-94 | the last accepted message of an index that has a node decides its record |
| LinkMap.LatestKnows | iproute2/lib/ll_map.c:71-78 | an index is known exactly when an accepted message of it had memory for a node |
| LinkMap.LatestKnown | iproute2/lib/ll_map.c:47-94 | every known index comes from its last accepted message |
| LinkMap.Cache.IndexToName | iproute2/lib/ll_map.c:96-109 | `*` for index 0, the map's name if known, the generated name otherwise |
| LinkMap.Cache.IndexToType | iproute2/lib/ll_map.c:119-129 | the map's type, or -1 |
| LinkMap.Cache.IndexToFlags | iproute2/lib/ll_map.c:131-142 | the map's flags, or 0 |
| LinkMap.Cache.IndexToAddr | iproute2/lib/ll_map.c:144-163 | the map's address cut to the caller's room; bytes of an earlier, longer address never show |
| RtAcct.TrackedIs | iproute2/misc/rtacct.c:309-318 | after any samples the value is off by exactly the missed wraps |
| RtAcct.TracksGrowth | iproute2/misc/rtacct.c:301-318 | the value has grown by the true growth if and only if no step grew by 2^32 or more and the total stays below 2^64 |
| RtAcct.WrapMissed | iproute2/misc/rtacct.c:311 | a counter that grows by 2^32 between two samples seems to stand still |
| RtAcct.Accounts.UpdateDb | iproute2/misc/rtacct.c:301-318 | after any kernel tables every value is the tracked one of its counter; rates go through the filter except where counter, value and rate are all zero |
| RtAcct.Accounts.constructor | iproute2/misc/rtacct.c:353-361 | the first table starts every value |
| RtAcct.ReportExact | iproute2/misc/rtacct.c:256-266 | a row shows the changes if and only if none of its four counters went back |
| RtAcct.BackOnce | iproute2/misc/rtacct.c:256-266 | one counter going back makes the row show the old totals of the other three once more |
| RtAcct.RealmReport | iproute2/misc/rtacct.c:256-266 | the two inner loops compute increments, or absolute values if any counter went back |
| RtAcct.DumpIncr | iproute2/misc/rtacct.c:243-289 | every selected realm is reported against the last dump, which the current values then replace; rows are in order, and left out exactly without a count or a rate unless zeros are asked for |
| RtAcct.DumpsSum | iproute2/misc/rtacct.c:243-289 | over every run of dumps the printed increments sum to the total change plus the totals repeated where a counter of the realm went back |
| RtAcct.PrintsGrowth | iproute2/misc/rtacct.c:243-318 | from kernel counters to printed rows: over every run of dumps the increments printed for a counter sum to its true growth, if the realm's four counters are tracked exactly |
| HexText.ValueExact | iproute2/lib/utils.c:663-671 | exactly the digits and the letters to f in either case have a value, their place in the row of digits |
| HexText.UpperParses | iproute2/lib/utils.c:652-688 | letters of either case name the same bytes |
| HexText.TextParses | iproute2/lib/utils.c:633-688 | parsing printed bytes gives them back |
| HexText.HexRoundTrip | iproute2/lib/utils.c:633-688 | where the text is terminated, printing into any room of any buffer and reading back recovers the bytes if and only if those past a third of the room are zero |
| HexText.FilledReads | iproute2/lib/utils.c:633-650 | the buffer reads as the written text if and only if that ends in a byte or the buffer already had a terminator behind it |
| HexText.HexN2a | iproute2/lib/utils.c:633-650 | the buffer's new contents for any room: the text, cut or not, its terminator where there is one, and the old contents behind |
| HexText.HexA2n | iproute2/lib/utils.c:652-688 | the parsed bytes cut or zero-filled to the caller's length, or an error for a bad digit or group |

## Left out

- FilterCompiler.CompiledVerdict: bounds programs by 65531 bytes, the most the 16-bit length of the attribute that carries them allows.
- FilterCompiler.CompilerPreservesMeaning: the leaf answers are a parameter that must agree with the interpreter's.
- KernelFilter.KernelAgrees: the kernel is not part of the repository; its tests are defined from the operation numbers and layouts of `inet_diag.h`. Ports of sockets have 16 bits, pathnames are never asked of the kernel, and autobinding is one answer for both sides.
- FilterCompiler.CompileHost: padding inside the host condition structure is zero here, while the C code leaves what `malloc` returned.
- DistTable.Invert: leaves out the store at an index equal to the table size, which the C code makes for the last cell, one past the array.
- DistTable.MakeTable: doubles are reals, so rounding of the double arithmetic itself is not modelled; the statistics and the histogram of the samples are not part of this model.
- Nexthops.MultipathRoundTrip: lists with four or more bytes of padding in a clause before the last, or eight or more in the last, are not covered: the next nexthop overlaps the attributes of such a clause, or they are read as one more nexthop, and what is shown depends on old buffer contents.
- Nexthops.AddHopsStores: the same clauses before the last are not covered.
- Nexthops.Builder.AddSubAttr: fails when the attribute would leave the local buffer of 1024 bytes, while the C call checks against 4096.
- Netlink.RunsAreSound: fixes the peer of a talk to the kernel, takes datagrams as whole and well formed, and assumes fewer than 2^32 sequence draws; truncated datagrams, interrupted reads and the junk callback are not modelled.
- Flush.Flusher.FlushRoutes: the selection does not change during the flush, as for IPv4; the 30-second limit and the verdict that IPv6 tables keep in a static flag are not modelled. After a batch the kernel may leave out routes of the running dump, but reports none twice.
- Prefixes.RootExact: covers the destination; the source prefix is tested by the same code.
- Arpd.AnswersExact: addresses have one length; statistics, the probe rate limit and the database file are not modelled, the clock and the success of a probe are parameters.
- NeighWire.NeighRead: a destination has four bytes; of a shorter one the C code reads on into what follows.
- NeighWire.AnswerSome: for a longer address the C code sends the answer without it.
- LinkMap.LinkRead: the name ends in its attribute; without a terminator the C code reads on.
- Arpd.StoreLearnsExact: the stored entry is not longer than the new address and the bytes of the message behind it.
- Arpd.CountsBounded: learned addresses do not start with the negative mark.
- ServiceCache.Cache.Resolve: keeps each chain as a sequence of entries and takes the bucket as a parameter; the resolver answers the same for the same port and protocol, and raw protocols are not modelled.
- HostChains.HeadSuffices: the words of an IPv4 socket behind its address are zero, while the C code leaves them as they were on the stack.
- LinkMap.Cache.IndexToName: the text of the generated name is a parameter.
- RtAcct.Accounts.UpdateDb: the rate filter is a parameter, since its floating-point values have no exact law.
- RtAcct.DumpIncr: the realm bitmap is a sequence of flags and the formatting of counts is not modelled.
- LongChains.TrimmedVerdict: one direction only; whether a badly cut operand of `and` or `or` is wrong depends on the other operand.
- MessageBuffer.NetlinkMessage.NestCompatEnd: the nest that the outer length leads to lies in the buffer.
- MessageBuffer.ParseNestedCompat: the attribute lies in the buffer.
- `ll_name_to_index`: its one-entry cache is not refreshed on a rename, so it has no such law.
- The name tables of `rt_names.c`: the numeric path overwrites the cached result, so cache agreement does not hold.
- Command-line parsing and printing in `ip`, `bridge`, `genl` and `tc`: long keyword chains with only easy claims.
- Sockets, `/proc`, `ioctl`, signals and processes are event sources or parameters.
- IPX and DECnet text, the `em_*` matchers, and the statistics of `nstat` and `ifstat`.
