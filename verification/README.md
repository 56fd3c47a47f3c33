# A verified model of the traffic generator's algorithmic cores

The repository is a packet generator: most of it drives network cards and terminals. Inside it are
eight self-contained algorithms, and this project models each of them in Dafny and proves what they are
for. `dafny verify dfyconfig.toml` checks everything.

- **GapBuffer.dfy** – the line editor's text store: five offsets into one growable block with a movable
  hole, changed in place by overlapping block moves. Module `Editor` is the meaning (a text and a
  cursor); class `GapBuffers.GapBuffer` is the store, and every run of operations on it is shown to
  leave the text and cursor the plain editor has.
- **TxBudget.dfy** – several queues taking bursts out of one packet counter by compare-and-swap, as a
  state machine in which every read and every compare-and-swap is a step of its own.
- **PortFlags.dfy** – port flag words changed by compare-and-swap loops of any number of threads, and the
  commands that keep packet sources, tags and tunnels exclusive.
- **TxPacing.dfy** – bursts paced by the cycle counter, and the rate limit that results.
- **Words.dfy**, **RandomBits.dfy** – random bitfields: mask parser and printer, the table, and the loop
  that masks packet words in place, also under retried bursts.
- **Capture.dfy** – the packet capture region (records appended behind a sentinel and walked back out) and
  the ownership of regions by ports and lcores.
- **CoreMap.dfy** – the map of logical cores: reading /proc/cpuinfo, compressing ids to ranks, looking
  triples up.
- **RangeFlow.dfy**, **GtpuFlow.dfy** – header fields stepped within ranges in machine arithmetic, GTP-U
  encapsulation over a range of eNBs, and per-flow counters.
- **NodeTree.dfy**, **NodePath.dfy** – the pool, free list and tree of command line nodes; printing and
  looking up paths.
- **LogRing.dfy** – the ring of log messages and the page that shows the most recent ones.
- **Arith.dfy** – facts about products and quotients shared by several files.

Where the code changes an object step by step, the model is a class whose methods do the same steps and
are proved against functions and predicates on values; the lemmas are about those. Where a property one
would expect does not hold of the code, the code is kept and the exact condition under which the
property holds is proved:

- `gb_putc` leaves a well-formed store exactly when the hole was not empty; `gb_del` exactly when no more
  is deleted than stands right of the cursor; `gb_expand_gap` keeps the cursor exactly when nothing had to
  grow or point was not behind the hole's start; `gb_point_offset` is the cursor exactly when point is not
  at the end of a non-empty hole; `gb_copy_to_buf` copies everything whatever size is asked for, except 0.
- A port that is started again can be switched off by a queue that is still about to act on the
  transmission before (`RestartIff`). Started for a number of packets it is sure to send them all exactly
  when no queue has found the old counter at zero and not yet cleared the flags. Started to send forever
  it is sure to go on exactly when no queue is past its test for that: one that is finds the new counter
  at zero. The first position is reached by every port with two queues, and by one with a single queue
  exactly with the help of a stop; the second by every port, when a stop comes between a queue's two flag
  tests.
- Threads that issue commands at the same time can leave two packet sources, two tags or two tunnels
  enabled. They never do so, whatever the interleaving, exactly when no two different threads turn on two
  different flags of one group (`ExclusiveIff`); threads working on different groups, or turning on the
  same flag, do not disturb each other.
- The random bitfield table is meant to start out ignoring every bit, but the mask used for that is
  rejected by the parser: an unset entry has all-zero masks and prints as 32 zeros, not 32 dots.
- Captured packets of odd length come back with one byte more, and a stored empty packet ends the walk:
  the packets come back as they were exactly when each is non-empty and of even length.
- The count of distinct ids is 1, not 0, for an empty core map. A lookup ends within the table of 256
  records exactly when not all of them are in use or some record matches, because the loop index has 8
  bits (`SctEndsIff`).
- Starting at the minimum, a stepped field follows the plain counter modulo the number of its values
  exactly when the step beyond the last value does not wrap around the machine word, or wraps to the
  minimum, or there is one value only. The special first step of the VLAN id delivers the minimum
  exactly if the increment equals the minimum, or exceeds the maximum, or there is one id only.
- The check of the eNB address range is done in 32 bits; outer addresses stay in the accepted range
  exactly when the range did not wrap (or, without any eNB, started at address 0).
- The per-flow tables are sized once, by the first maximum set and the minimum at that time. They stop
  covering the counted addresses when a later maximum, or a later first address (which another command
  sets), makes the span exceed that size; the exact condition is stated for both commands. With minimum
  and first address 10 and maximum 20 there are 11 entries, and setting the first address to 1 leaves
  address 20 without one.
- Looking up a printed path finds its node exactly when the node is at most 64 levels deep, every name on
  the way is ordinary - not empty, no slash, no white space around it, not `.` or `..` - and no step is
  hidden by an earlier sibling of the same name. Commands of any other
  name are accepted, too: one named `a/b` cannot be found by its path.

## Model

| member | source | states |
|---|---|---|
| Editor.InsertStringIsInserts | pktgen/lib/cli/cli_gapbuf.h:608-628 | inserting a string is the same as inserting its characters one by one, for every text and cursor |
| Editor.InsertThenDelete | pktgen/lib/cli/cli_gapbuf.h:587-628 | going back to where a string was inserted and deleting its length restores text and cursor |
| GapBuffers.GapBuffer.TextIsBytesAroundHole | pktgen/lib/cli/cli_gapbuf.h:113-148 | the text is the bytes before the hole followed by the bytes behind it |
| GapBuffers.GapBuffer.constructor | pktgen/lib/cli/cli_gapbuf.c:64-94 | a new store shows the empty text with the cursor at 0 |
| GapBuffers.GapBuffer.Reset | pktgen/lib/cli/cli_gapbuf.c:45-60 | resetting shows the empty text, in the same block |
| GapBuffers.GapBuffer.DataSize | pktgen/lib/cli/cli_gapbuf.h:141-148 | the pointer difference is the length of the text |
| GapBuffers.GapBuffer.AtEnd | pktgen/lib/cli/cli_gapbuf.h:306-310 | the test on pointers holds exactly when the cursor is behind the last character |
| GapBuffers.GapBuffer.RightDataSize | pktgen/lib/cli/cli_gapbuf.h:655-660 | is the number of characters right of the cursor exactly when the cursor is at the hole or at the end |
| GapBuffers.GapBuffer.PointOffset | pktgen/lib/cli/cli_gapbuf.h:289-295 | is the cursor exactly when point is not at the end of the hole or the hole is empty |
| GapBuffers.GapBuffer.SetPoint | pktgen/lib/cli/cli_gapbuf.h:269-278 | for every index into the text the cursor becomes that index and the offset read back is the index; text unchanged |
| GapBuffers.GapBuffer.SetPointEnd | pktgen/lib/cli/cli_gapbuf.h:269-278 | index -1 puts the cursor behind the last character |
| GapBuffers.GapBuffer.MoveRight | pktgen/lib/cli/cli_gapbuf.h:671-676 | the cursor goes one to the right, over the hole if need be, and stops at the end |
| GapBuffers.GapBuffer.MoveLeft | pktgen/lib/cli/cli_gapbuf.h:687-692 | the cursor goes one to the left, over the hole if need be, and stops at 0 |
| GapBuffers.GapBuffer.MoveGapToPoint | pktgen/lib/cli/cli_gapbuf.h:323-352 | the overlapping move keeps text, cursor and size of the hole and brings hole and point together; the third branch is unreachable |
| GapBuffers.GapBuffer.ExpandBuf | pktgen/lib/cli/cli_gapbuf.h:365-381 | reallocation keeps text and cursor and makes room for what was asked plus the default gap |
| GapBuffers.GapBuffer.ExpandGap | pktgen/lib/cli/cli_gapbuf.h:394-406 | the hole gets at least as large as asked, the used part stays inside the block and the text stays; the cursor stays exactly when nothing grew or point was not behind the hole's start |
| GapBuffers.GapBuffer.Put | pktgen/lib/cli/cli_gapbuf.h:480-491 | the character at the cursor is replaced, or one is appended at the end of the text |
| GapBuffers.GapBuffer.Putc | pktgen/lib/cli/cli_gapbuf.h:542-552 | the character is inserted at the cursor; the store is well formed afterwards exactly when the hole was not empty |
| GapBuffers.GapBuffer.Insert | pktgen/lib/cli/cli_gapbuf.h:565-574 | the character is inserted at the cursor, whatever the hole |
| GapBuffers.GapBuffer.Del | pktgen/lib/cli/cli_gapbuf.h:587-593 | well formed afterwards exactly when no more is deleted than stands right of the cursor, and then just those characters are gone |
| GapBuffers.GapBuffer.StrInsert | pktgen/lib/cli/cli_gapbuf.h:608-628 | the given number of bytes, or the C string, is inserted at the cursor, which ends up behind it |
| GapBuffers.GapBuffer.CopyToBuf | pktgen/lib/cli/cli_gapbuf.c:14-42 | the whole text and a terminator are written and nothing behind them; no more is copied than asked for exactly when 0 or enough was asked for |
| GapBuffers.GapBuffer.KillToEnd | pktgen/lib/cli/cli_vt100.c:109-120 | everything right of the cursor is cut off |
| GapBuffers.GapBuffer.Do | pktgen/lib/cli/cli_gapbuf.h:269-692 | each operation does to text and cursor what the plain editor does |
| GapBuffers.GapBuffer.DoAll | pktgen/lib/cli/cli_gapbuf.h:269-692 | every run of operations leaves the text and cursor the plain editor has |
| TxBudget.Conservation | pktgen/app/pktgen-port-cfg.h:240-257 | in every interleaving, packets granted and packets left add up to the starting count; no grant is empty or larger than the largest burst |
| TxBudget.GrantsAreFullBursts | pktgen/app/pktgen-port-cfg.h:246-256 | with a common burst b the grants are full bursts and at most one shorter last one, and the counter is used up after exactly ceil(n / b) of them |
| TxBudget.LostRacesBounded | pktgen/app/pktgen-port-cfg.h:251-254 | lost compare-and-swaps are bounded by the granted bursts times the number of other queues |
| TxBudget.LostRacesOfATransmission | pktgen/app/pktgen-port-cfg.h:240-257 | a transmission loses at most (queues - 1) times ceil(n / b) races however it is scheduled |
| TxBudget.NothingAfterTheFirstZero | pktgen/app/pktgen.c:1207-1220 | after the counter reached zero nothing is granted and no flag comes back on until the next start |
| TxBudget.RunEmptyMeansZero | pktgen/app/pktgen-port-cfg.h:247-249 | in every interleaving, a queue about to clear the flags implies that the counter is at zero |
| TxBudget.ZeroGrantEndsSending | pktgen/app/pktgen.c:1219-1220 | wherever in a run a zero grant clears the flags, everything had been granted, sending is off at the end and nothing more is granted |
| TxBudget.RestartIff | pktgen/app/pktgen-cmds.c:1391-1407 | for any number of packets, zero meaning forever: a restart is sure to send everything, or to go on, exactly when no queue is in a position - a different one in the two cases - to clear the flags |
| TxBudget.LateClearIsReachable | pktgen/app/pktgen.c:1207-1220 | on every port with two queues or more, every transmission has a run without start or stop to a state where sending is off and a queue has yet to clear the flags |
| TxBudget.LateClearAfterStop | pktgen/app/pktgen-cmds.c:1421-1431 | with a stop in the run, a port with one queue gets there, too |
| TxBudget.OneQueueNeedsStop | pktgen/app/pktgen.c:1207-1220 | without one, a port with one queue never does |
| TxBudget.LatePassIsReachable | pktgen/app/pktgen.c:1195-1210 | on every port sending forever, a stop leads to a state where sending is off and a queue is past its test for sending forever, none about to clear the flags |
| TxBudget.Counter.TxCount | pktgen/app/pktgen-port-cfg.h:240-257 | the loop against any interference: grant, what others took and what is left add up; zero only if the counter is empty; each lost race is paid for by a packet taken by somebody else |
| PortFlags.Linearizable | pktgen/app/pktgen.h:360-398 | at every step the word is what the completed updates give one after the other; each thread's updates complete in its own order and none is lost |
| PortFlags.FlagIsLastUpdate | pktgen/app/pktgen.h:360-398 | a flag has the value the last completed update naming it gave it, or its first value |
| PortFlags.CommandSafe | pktgen/app/pktgen-cmds.c:1766-1775 | each command keeps at most one flag per group set, also between its single updates |
| PortFlags.ScriptSafe | pktgen/app/pktgen-cmds.c:2646-2655 | so does every sequence of commands |
| PortFlags.ExclusiveIff | pktgen/app/pktgen-cmds.c:1858-1911 | for any number of threads issuing any commands: every group stays exclusive at every step of every interleaving exactly when no two different threads turn on two different flags of one group |
| PortFlags.Clash | pktgen/app/pktgen-cmds.c:1527-1538 | if two threads turn on two flags, some run leaves both set |
| PortFlags.ExclusiveThroughout | pktgen/app/pktgen-cmds.c:1527-1538 | so with one thread issuing commands and any others changing flags of no group, every group stays exclusive at every step |
| PortFlags.TwoControllersCanClash | pktgen/app/pktgen-cmds.c:2322-2335 | a concrete input: one thread enabling the range and one the sequence have a run that leaves both enabled |
| PortFlags.FlagWord.Change | pktgen/app/pktgen.h:360-378 | the loop acts as its one update after all those others completed meanwhile |
| TxPacing.CyclesPerPacket | pktgen/app/pktgen-cmds.c:2361-2364 | the quotient brackets the clock rate: cpp * pps <= hz < (cpp + 1) * pps |
| TxPacing.Handed | pktgen/app/pktgen.c:1190-1222 | one turn of a queue hands over at most one burst, whether counted or sending forever |
| TxPacing.TxLoop | pktgen/app/pktgen.c:1487-1526 | each queue of a worker sends exactly what comes due on its own polls; the branch for bonded devices changes nothing of that |
| TxPacing.ScheduleSpaced | pktgen/app/pktgen.c:1507-1515 | two bursts of a queue are at least one cycle count apart, whatever the clock reads |
| TxPacing.WindowOfAQueue | pktgen/app/pktgen.c:1507-1515 | what one queue sends in any window is bounded by the window's length and one burst |
| TxPacing.RateLimit | pktgen/app/pktgen-cmds.c:2351-2365 | all queues of a port together send in any window of w cycles at most w / cpp packets and one burst per queue, whatever each turn finds, dated by the clock reading of their turn |
| TxPacing.DepartureLimit | pktgen/app/pktgen.c:271-312 | dated by when the spinning send loop gets each packet accepted, at most w / cpp packets and two bursts per queue |
| RandomBits.ParseMask | pktgen/app/pktgen-random.c:113-146 | succeeds exactly on legal masks, and then each of the three words has the bits whose letter asks for it, left-aligned |
| RandomBits.RndBits.constructor | pktgen/app/pktgen-random.c:60-79 | every entry starts inactive, at offset 0, with all-zero masks |
| RandomBits.RndBits.Set | pktgen/app/pktgen-random.c:94-177 | bad index or mask changes nothing; the empty mask only deactivates; any other mask is encoded and activated, other entries unchanged; active entries keep disjoint 0, 1 and random bits |
| RandomBits.ConvertBitfield | pktgen/app/pktgen-cmds.c:28-52 | prints for each bit what the spec makes of it |
| RandomBits.PrintOfParsed | pktgen/app/pktgen-cmds.c:28-52 | printing what was parsed gives the mask back, x in upper case, padded to 32 with dots |
| RandomBits.ParseOfPrinted | pktgen/app/pktgen-random.c:94-177 | what is printed is legal, and parsing it gives the same three masks exactly when the spec was well formed |
| RandomBits.UnsetPrintsZeros | pktgen/app/pktgen-random.c:71-76 | an entry never set prints as 32 zeros |
| RandomBits.ApplySpecBit | pktgen/app/pktgen-random.c:214-233 | one spec sets each bit of its window to 0, 1 or its random bit or leaves it, and changes nothing outside |
| RandomBits.HighestSpecDecides | pktgen/app/pktgen-random.c:192-242 | after all specs each packet bit is decided by the last active spec that names it, and keeps its value if all ignore it |
| RandomBits.DeciderIsLast | pktgen/app/pktgen-random.c:213-238 | that spec is active and names the bit, and no active spec behind it does |
| RandomBits.Reapply | pktgen/app/pktgen.c:350-357 | applying the table again with other random values is as if it had been applied only then |
| RandomBits.ApplyToPacket | pktgen/app/pktgen-random.c:210-241 | the word-level loop in place does to the packet what the specs do one after the other, drawing one value per active random spec |
| RandomBits.Apply | pktgen/app/pktgen-random.c:192-242 | every packet of the burst gets the specs with its own random values, packets before the first untouched |
| RandomBits.SendBurstRandom | pktgen/app/pktgen.c:326-358 | however the device takes the burst in parts, every packet leaves as if the table had been applied to it once, in order, and as many as the device accepted |
| CaptureBuffers.Padded | pktgen/app/pktgen-capture.c:298-302 | the stored length is even, at most one more than the packet's, and equal to it exactly for even lengths |
| CaptureBuffers.CaptureBuffer.Reset | pktgen/app/pktgen-capture.c:130-141 | enabling a capture forgets all packets stored before |
| CaptureBuffers.CaptureBuffer.Append | pktgen/app/pktgen-capture.c:314-324 | a record behind the others keeps them intact and the tail even and in bounds |
| CaptureBuffers.CaptureBuffer.Bulk | pktgen/app/pktgen-capture.c:286-330 | the packets stored are the earlier ones followed by those of the bulk up to the first that does not fit; the tail stays at or before the end and the sentinel stands there |
| CaptureBuffers.AcceptedFits | pktgen/app/pktgen-capture.c:304-312 | what is accepted from a bulk fits into the room there was |
| CaptureBuffers.CaptureBuffer.Walk | pktgen/app/pktgen-capture.c:221-234 | the walk hands over exactly the stored packets up to the first empty one, in order, with their lengths and bytes |
| CaptureBuffers.AllVisibleIff | pktgen/app/pktgen-capture.c:223-234 | the walk yields every stored packet exactly when none of them is empty |
| CaptureBuffers.WalkReturnsPacketsIff | pktgen/app/pktgen-capture.c:221-234 | what the walk hands over is the stored packets, byte for byte, exactly when each is non-empty and of even length |
| CaptureOwners.Owners.constructor | pktgen/app/pktgen-capture.c:39-55 | no port captures at first |
| CaptureOwners.Owners.Enable | pktgen/app/pktgen-capture.c:75-146 | exactly when capturing is possible and the socket of the port's first receiving lcore is free, that socket gets port and lcore and the port its flag; otherwise nothing changes |
| CaptureOwners.Owners.Disable | pktgen/app/pktgen-capture.c:163-265 | the flag goes off and the socket naming the port is freed, all others unchanged; the two branches for states that should not happen are unreachable |
| CaptureOwners.Owners.FlagIffOneOwner | pktgen/app/pktgen-capture.c:75-265 | a port captures exactly when a socket with memory names it as owner, and never two do |
| CoreMaps.RankCounts | pktgen/lib/cli/cli_cmap.c:170-185 | a rank is the number of smaller distinct values |
| CoreMaps.ZeroBasedIsDense | pktgen/lib/cli/cli_cmap.c:170-185 | replacing values by ranks keeps order and distinctness, and leaves exactly the values below the number of distinct ones |
| CoreMaps.ClosestGte | pktgen/lib/cli/cli_cmap.c:158-168 | selects the first record with the smallest value not below the bound, or none if there is none |
| CoreMaps.Cmap.Remap | pktgen/lib/cli/cli_cmap.c:139-152 | from the given record on every occurrence of a value is replaced, all else unchanged |
| CoreMaps.Cmap.ZeroBase | pktgen/lib/cli/cli_cmap.c:175-185 | terminates after one round per distinct value with every value replaced by the number of distinct smaller ones originally in the list |
| CoreMaps.Cmap.Count | pktgen/lib/cli/cli_cmap.h:155-169 | is one more than the largest value, and 1 for an empty list |
| CoreMaps.CountIsDistinct | pktgen/lib/cli/cli_cmap.h:155-169 | after compression that is the number of distinct ids, exactly when the list is not empty |
| CoreMaps.NextIsCount | pktgen/lib/cli/cli_cmap.c:90-98 | the next thread id is the number of earlier records of the same core |
| CoreMaps.BlocksRead | pktgen/lib/cli/cli_cmap.c:57-133 | reading a well-formed file of up to 256 blocks gives each block a record with its lcore, its stated ids and the number of earlier blocks about the same core |
| CoreMaps.NumberedIsUnique | pktgen/lib/cli/cli_cmap.c:90-106 | so no two records share socket, core and thread |
| CoreMaps.ThreadsAreDense | pktgen/lib/cli/cli_cmap.c:90-106 | on every core the thread ids run from 0 without gaps |
| CoreMaps.ZeroBasedKeepsNumbers | pktgen/lib/cli/cli_cmap.c:269-270 | compressing socket or core ids keeps that numbering, hence the uniqueness |
| CoreMaps.LookupFindsLcore | pktgen/lib/cli/cli_cmap.c:263-280 | from file to lookup: the ranks of a block's ids and its number on its core lead to that block's lcore, for every block |
| CoreMaps.UniqueMatch | pktgen/lib/cli/cli_cmap.c:302-312 | with unique triples the first match of a record's triple is that record |
| CoreMaps.SctEndsIff | pktgen/lib/cli/cli_cmap.c:302-312 | the loop ends without reading behind the table exactly when not all 256 records are in use or one matches |
| CoreMaps.Cmap.ReadLines | pktgen/lib/cli/cli_cmap.c:263-264 | the loop performs the actions of the lines in order |
| CoreMaps.Cmap.CopyInfo | pktgen/lib/cli/cli_cmap.c:187-195 | the recursion stores each record at its place in the array and touches nothing else |
| CoreMaps.Cmap.Create | pktgen/lib/cli/cli_cmap.c:240-283 | the array ends up with the records read, both ids compressed one after the other, and with the counts of distinct ids |
| CoreMaps.Cmap.Sct | pktgen/lib/cli/cli_cmap.c:302-312 | answers with the first matching record's lcore, or 0 if none matches, for every map on which the loop ends |
| RangeFlow.StepInRange | pktgen/app/pktgen-range.c:68-93 | one step leads into the range from any value, exactly when minimum and maximum are in order |
| RangeFlow.ClosedForm | pktgen/app/pktgen-range.c:68-93 | starting at the minimum, the n-th value is min + (n mod L) * inc for all n exactly when the range closes within the machine word |
| RangeFlow.OncePerRound | pktgen/app/pktgen-range.c:68-93 | any L consecutive packets carry each value of the range exactly once |
| RangeFlow.EachAddressOnce | pktgen/app/pktgen-range.c:68-80 | with increment 1 that is every address from minimum to maximum |
| RangeFlow.WidenedCloses | pktgen/app/pktgen-range.c:95-161 | fields of up to 16 bits stepped in 32 bits always close |
| RangeFlow.MacCloses | pktgen/app/pktgen-range.c:163-193 | MAC addresses stepped in 64 bits always close, and lose no bits when written back as six bytes |
| RangeFlow.FirstVlan | pktgen/app/pktgen-range.c:95-110 | the special first step delivers the minimum exactly under the stated condition on the increment |
| RangeFlow.RangeCtor.Construct | pktgen/app/pktgen-range.c:24-217 | all fields of an IPv4 TCP or UDP packet are stepped, each in its own width, the TEID only for port 2152; other packets are left alone |
| GtpuFlow.TeidIdentifiesUe | pktgen/app/pktgen.c:967-977 | two UE addresses get the same tunnel id only if they are the same |
| GtpuFlow.OuterSourceInRangeIff | pktgen/app/pktgen-tool.c:310-327 | all outer addresses lie in the accepted range exactly when it did not wrap, or has no eNB and starts at 0 |
| GtpuFlow.PairingIff | pktgen/app/pktgen.c:989-993 | equal positions in the UE round imply equal positions in the eNB round exactly when the eNB period divides the number of UE addresses, wherever in both rounds a series begins |
| GtpuFlow.UeKeepsItsEnbIff | pktgen/app/pktgen.c:989-993 | the same of the addresses in the packets: each UE keeps its eNB in every round exactly then, wherever a series begins |
| GtpuFlow.NthAgain | pktgen/app/pktgen-range.c:68-80 | stepping on from where a series stopped gives the values after it |
| GtpuFlow.Encapsulation.OuterSource | pktgen/app/pktgen.c:989-993 | the static counter runs modulo the smaller of the numbers of UEs and eNBs, zero meaning 2^32 |
| GtpuFlow.Encapsulation.Setup | pktgen/app/pktgen.c:1061-1074 | the n-th packet set up carries the (n+1)-st inner address of the range, the n-th outer address and the tunnel id of its inner address; inner address and counter are left where the next series goes on |
| GtpuFlow.FlowCounters.SetIpPktCounters | pktgen/app/pktgen-tool.c:657-672 | tables are allocated once, zeroed, and never resized |
| GtpuFlow.FlowCounters.Covers | pktgen/app/pktgen-tool.c:184-199 | counting stays within the tables for every address exactly under the stated condition on first address, last address and size |
| GtpuFlow.FlowCounters.SetSrcIpMax | pktgen/app/pktgen-cmds.c:2831-2838 | the size of the tables, and which addresses they cover, after the first and after later settings, for every first address |
| GtpuFlow.FlowCounters.SetStartIp | pktgen/app/pktgen-cmds.c:2571-2574 | a new first address keeps the tables; they cover the addresses exactly when the span fits their size |
| GtpuFlow.FlowCounters.StorePacketCnt | pktgen/app/pktgen-tool.c:182-202 | addresses outside the range and 0 count nowhere, others in exactly one port and one flow entry; per queue, ports and flows always add up to the same |
| GtpuFlow.BumpBoth | pktgen/app/pktgen-tool.c:192-200 | counting in both tables keeps the per-queue sums equal |
| NodeTrees.DeleteLinked | pktgen/lib/cli/cli.c:153-189 | after a removal the links are those of the tree without that subtree |
| NodeTrees.CountDeleted | pktgen/lib/cli/cli.c:153-189 | deleting a node takes away it and what is below it, and nothing else |
| NodeTrees.AddThenRemove | pktgen/lib/cli/cli.c:152-261 | removing a node just added gives back the tree there was |
| NodeTrees.PartitionAfterInsert | pktgen/lib/cli/cli.c:42-74 | each node of the pool stays in exactly one of tree and free list when one is allocated |
| NodeTrees.PartitionAfterDelete | pktgen/lib/cli/cli.c:76-81 | and when a subtree is freed |
| NodeTrees.Removable | pktgen/lib/cli/cli.c:160-162 | only the root has no parent |
| NodeTrees.Cli.constructor | pktgen/lib/cli/cli.c:711-716 | a fresh pool has the root in the tree and all other nodes free |
| NodeTrees.Cli.Alloc | pktgen/lib/cli/cli.c:42-74 | hands out the first free node, or none |
| NodeTrees.Cli.AddNode | pktgen/lib/cli/cli.c:192-261 | adds the node at the head of its directory exactly when the checks pass and a node is free; otherwise nothing changes |
| NodeTrees.Cli.RemoveNode | pktgen/lib/cli/cli.c:152-189 | the recursion terminates, frees the subtree in post-order and changes only the subtree and its parent's items |
| NodeTrees.Cli.RemoveItems | pktgen/lib/cli/cli.c:165-171 | the loop empties a directory, freeing everything below it |
| NodeTrees.Cli.Remove | pktgen/lib/cli/cli.c:152-189 | root and no node are left alone; otherwise exactly the subtree goes from tree to free list, the rest as before |
| NodePaths.StrTok | pktgen/lib/cli/cli_string_fns.c:62-77 | yields the trimmed non-empty parts between slashes, at most as many as asked for |
| NodePaths.SplitJoined | pktgen/lib/cli/cli.h:491-496 | splitting the names joined by slashes gives the names back |
| NodePaths.PathString | pktgen/lib/cli/cli.h:482-499 | prints the names on the way from the root to the node |
| NodePaths.FindInDir | pktgen/lib/cli/cli_search.c:163-188 | finds the first item with the name and one of the wanted types, the parent for .. and the directory itself for . |
| NodePaths.FindNode | pktgen/lib/cli/cli_search.c:190-240 | walks down the parts of the path from the root or the working directory |
| NodePaths.OneWay | pktgen/lib/cli/cli.h:491-493 | there is only one way from the root to a node |
| NodePaths.LookupFindsPrintedIff | pktgen/lib/cli/cli_search.c:190-240 | looking up a node's printed path finds that node exactly when it is at most 64 levels deep, all names on the way are ordinary and no step is hidden by an earlier sibling |
| NodePaths.LookupReaches | pktgen/lib/cli/cli_search.c:206-238 | whatever an absolute path leads to has ordinary names all the way from the root |
| NodePaths.SlashInNameIsLost | pktgen/lib/cli/cli.c:210-213 | a concrete input: the command a/b is accepted below the root, visible, and not found by its printed path |
| NodePaths.FirstNamedIff | pktgen/lib/cli/cli_search.c:182-185 | a step is not hidden exactly when no earlier item has its name |
| NodePaths.DistinctNamesSuffice | pktgen/lib/cli/cli_search.c:190-240 | with distinct, ordinary sibling names every printed path of at most 64 levels leads back to its node |
| LogRing.RingIsLast | pktgen/app/pktgen-log.c:105-113 | after n messages the ring, read from tail to head, is exactly the last min(n, 63), in order |
| LogRing.Log.constructor | pktgen/app/pktgen-log.c:56-63 | the history starts empty |
| LogRing.Log.Store | pktgen/app/pktgen-log.c:82-113 | storing a message appends it to the history the ring holds the end of |
| LogRing.Log.Page | pktgen/app/pktgen-log.c:160-216 | the page is the most recent block of messages in chronological order: as many as it takes to fill it, or all there are; nothing is shown when nothing changed |
| LogRing.Log.Collect | pktgen/app/pktgen-log.c:179-203 | the walk back stops as soon as the page is full or the tail is reached, and never overruns the array of lines |

## Left out

- Gap buffer sizes beyond 32 bits and failing allocation; the character and prefix readers (`gb_get` and its kin).
- TxBudget.Conservation: counts what is granted. A granted burst whose packet buffers cannot be allocated is not sent, and bursts in forever mode are not counted.
- Starting and stopping a transmission is one step, as is clearing the two sending flags; the original sets SENDING_PACKETS a moment before it decides on SEND_FOREVER.
- TxBudget.Counter.TxCount: interference is a list of bursts others take between a read and a compare-and-swap; rounds behind its end are undisturbed.
- PortFlags.FlagWord.Change: interference is such a list, too. A flag word is the set of the positions of its one bits.
- TxPacing.RateLimit: dates packets by the clock reading of their turn; for when they leave see DepartureLimit, which takes a clock that does not run backwards. Both are for the port that is first on its lcores, with fixed settings; a further port of an lcore is paced by the first one's cycles. ARP and ping packets sent in between are not data packets and not counted. The floating-point rate is not modelled.
- TxPacing.TxLoop: ends with the list of rounds instead of the worker being told to stop; the flushing of a queue after a stop is not modelled.
- Random words are arbitrary values and words are lists of bits; the host and network byte order conversions, which cancel out, are not written.
- RandomBits.SendBurstRandom: the device's answers are a finite list; the branch that also feeds a TAP interface and the latency variant are not modelled.
- CaptureBuffers.CaptureBuffer.Bulk: packets are unsegmented and shorter than 65535 bytes, so that length and stored length fit 16 bits.
- The file written by the capture, its name and its progress display.
- CoreMaps.Cmap.Create: lines are given by the action they select; opening the file, splitting it into lines and reading numbers are not modelled, nor is the model name.
- CoreMaps.Cmap.ReadLines: likewise takes lines already classified by the action they select.
- CoreMaps.Cmap.Sct: asks for a matching record when all 256 are in use, since the original's loop runs past the table otherwise.
- The constructors of the packet headers, checksums included.
- The setup callback runs on one lcore; the original's static variables are shared by all.
- GtpuFlow.FlowCounters.StorePacketCnt: counters are unbounded, and an address that is counted must have an entry in the tables; what the original does to memory otherwise is not modelled. Freeing the tables at exit and the responder role are left out.
- NodeTrees.Cli.AddNode: parents are directories of the tree, the root exists already, and string nodes, which nothing in the repository adds, are left out. Function pointers are reduced to whether one is given.
- NodeTrees.Cli.Alloc: for a fixed pool, without the mode in which the pool grows.
- NodeTrees.Cli.RemoveNode: does not take directories out of the list of bin directories, which the original does for their first entry only.
- GapBuffers.GapBuffer.KillToEnd: the copy of the cut text kept for a later yank is not modelled.
- The list of bin directories, the working directory as state, alias texts, file data and the unlimited-pool mode of the node tree.
- Adding a whole directory path at once, and the tables of nodes added together.
- NodePaths.PathString: buffer lengths are not modelled; characters are compared as they are.
- LogRing.Log.Store: a message is its formatted text; time, level, truncation to 1023 characters and the log file are not modelled, nor is the lock, under which each call is one step.
- Saving and reloading configuration, command history, environment variables, in-memory files, screen pages, timers and all network card access.
