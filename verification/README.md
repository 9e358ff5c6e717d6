# OpenSMTPD: a Dafny model

This project models the parts of OpenSMTPD and its portability layer that rest on a real
argument, and proves what they promise. Each module follows one source file or one part of
it:

- **Transaction ids** (`ResRandom`, with `Lcg`, `PrimitiveRoot`, `Permute15` and `Modular`):
  the resolver's id generator chains a linear congruential generator, modular
  exponentiation, an 11-round Luby-Rackoff network and a toggled top bit. Ids do not repeat
  within an epoch or between neighbouring ones.
- **Search trees** (`Splay`, `RbShape`, `RbColour`, `RedBlack`, `Keys`): the intrusive
  top-down splay tree and the red-black tree with parent links, on heap nodes, proved
  against the in-order sequence of nodes. `Dict`, the string map on the splay tree, refines
  a finite map.
- **imsg** (`ImsgWire`, `Imsg`, `ImsgChannel`): messages with file descriptors over a stream
  socket that cuts them anywhere, from the buffers up to two channel ends.
- **The resolver** (`Dname`, `DnsPacket`, `DnsQuery`, `ResSend`): compressed names, packets,
  building a query, checking an answer, and the state machine of a query over UDP and TCP.
- **Bounces** (`Bounce`, `BounceQueue`, `BounceTree`): waiting messages in a list and a splay
  tree, sessions, requested sockets and a timer, with conservation of envelopes and progress
  over every run of events. Sessions hold the state of their io as in `Ioev`, so that what
  the io is told follows from there.
- **Input and output** (`Iobuf`, `Ioev`): line input, the linked output queue, and event
  framing.
- **Calendar** (`Calendar`): POSIX time and the proleptic Gregorian calendar.
- **Envelopes** (`Envelope`, `EnvelopeText`): the text form on disk, written and read again.
- **Base64** (`Base64`): the accepted strings are exactly the canonical encodings.

`Common` holds what several modules share.

State that the source updates in place is a class here, with a predicate for its invariant
and methods whose contracts say what the new state is. Ghost fields and ghost parameters
carry the abstract value (the shape of a tree, the bytes in flight, the ids accounted for).
What the operating system, the clock or a random source decides is a parameter of a method,
often a function from call numbers to outcomes, so that a result holds for every behaviour
of theirs.

Where the code and its comments differ, the model follows the code:

- `res_random.c` says that the congruential generator has period m - 1; it has period m.
  An increment of 65535 wraps to 1.
- `a_time_posix.c` says that days start at -61; the first day is -60.
- `dname_expand` reports the furthest end of all runs of a compressed name as the new
  offset. `Dname.FinalIsOwn` says exactly when that is the end of the name itself, and
  `Dname.FinalIsNotAlwaysOwn` gives a packet for which it is not.
- `setup_query` does not notice that `_asr_make_fqdn` refused a name as too long; such a name
  is refused later, because it cannot fit the packet (`DnsQuery.SetupQuery`).
- `io_dispatch` goes on to the input after the callback for the low-water mark, also if that
  callback has freed the io. `Ioev.System.Dispatch` says exactly when that happens, and
  `Ioev.UseAfterFree` gives a run; a half-duplex io is never ready for both.

## Model

| member | source | states |
|---|---|---|
| `ResRandom.IdsDoNotRepeat` | openbsd-compat/res_random.c:228-250 | In every run of calls, with any entropy, clock and process ids, two ids returned in the same epoch or in neighbouring epochs differ, and an epoch has at most 30000 calls. |
| `ResRandom.EpochGoesOn` | openbsd-compat/res_random.c:238-241 | In every run, an epoch that began with call i goes on at call j exactly if j is fewer than 30000 calls later, no later than 180 seconds after the clock read when seeding, and in the same process. |
| `ResRandom.EpochCalls` | openbsd-compat/res_random.c:238-241 | All calls of an epoch come from one process and within 180 seconds, so a fork always reseeds. |
| `ResRandom.WhenReseeded` | openbsd-compat/res_random.c:238-241 | A call reseeds after 30000 calls, when the time is up, and in another process, and only then: what happens to counter, time limit, process id and top bit. |
| `ResRandom.EveryChoice` | openbsd-compat/res_random.c:173-226 | Every start, both seeds, every multiplier 7^(2k), every increment prime to 6, every generator and every pair of tables are outcomes of a reseed for some entropy, with the counter at 0 and the limit 180 seconds ahead. |
| `ResRandom.SeedMatters` | openbsd-compat/res_random.c:247-249 | Another seed gives another id. |
| `ResRandom.Seed2Matters` | openbsd-compat/res_random.c:247-249 | Another exponent offset gives another id. |
| `Lcg.FullPeriod` | openbsd-compat/res_random.c:243-245 | For every multiplier and increment res_initid can choose, no 31104 consecutive values of the generator repeat. |
| `Lcg.ReturnTime` | openbsd-compat/res_random.c:243-245 | The generator returns to a value only after a multiple of 31104 steps. |
| `Lcg.ClosedForm` | openbsd-compat/res_random.c:243-245 | n steps of the generator are one affine map with the geometric sum as its offset. |
| `PrimitiveRoot.GeneratorInjective` | openbsd-compat/res_random.c:195-214 | Powers of the chosen generator modulo 32749 are distinct for exponents less than 32748 apart. |
| `PrimitiveRoot.OrderDivides` | openbsd-compat/res_random.c:76-77 | 2^k is 1 modulo 32749 only if 32748 divides k. |
| `PrimitiveRoot.KnownPowers` | openbsd-compat/res_random.c:76-77 | The powers of 2 modulo 32749 that the order argument rests on. |
| `Permute15.PermuteBijective` | openbsd-compat/res_random.c:135-163 | For every pair of tables, or none, the 11 rounds have an inverse on 15 bits, from both sides. |
| `Permute15.RoundsAddUp` | openbsd-compat/res_random.c:149-160 | There are 11 rounds and each reads its own part of the two tables: if part k holds k, the left half changes by 0 to 5 and the right by 0 to 4 over the rounds, which adds up to 1 and 4. |
| `Permute15.Permute` | openbsd-compat/res_random.c:134-163 | The loop over the rounds computes the permutation. |
| `ResRandom.PMod` | openbsd-compat/res_random.c:114-130 | Square and multiply computes gen^exp mod mod, without leaving the range of int. |
| `ResRandom.SkipMultiplesOfThree` | openbsd-compat/res_random.c:192-193 | The increment becomes odd and prime to 3 within 16 bits, and the loop ends. |
| `ResRandom.Increment` | openbsd-compat/res_random.c:190-193 | The increment is prime to 6 and fits 16 bits. |
| `ResRandom.FindExponent` | openbsd-compat/res_random.c:195-212 | The search for an exponent ends. |
| `ResRandom.Search` | openbsd-compat/res_random.c:195-212 | The exponent found is below 32749 and prime to 32748. |
| `ResRandom.MultiplierIsOneModTwelve` | openbsd-compat/res_random.c:191-191 | Every multiplier 7^(2k) mod 31104 is 1 modulo 12. |
| `ResRandom.InitSeeds` | openbsd-compat/res_random.c:173-226 | Reseeding leaves a state for which the period results hold, and toggles the top bit. |
| `ResRandom.AfterIsSeeded` | openbsd-compat/res_random.c:228-250 | After any run of calls the state is one for which the period results hold. |
| `ResRandom.NextValid` | openbsd-compat/res_random.c:228-250 | A call leaves a seeded state whatever state it finds. |
| `ResRandom.IdGenerator.InitId` | openbsd-compat/res_random.c:173-226 | The static variables after a reseed. |
| `ResRandom.IdGenerator.RandomId` | openbsd-compat/res_random.c:228-250 | The static variables and the id after a call, with a reseed exactly after 30000 calls, past the time limit, or in another process; the generator step stays within int. |
| `ResRandom.IdRange` | openbsd-compat/res_random.c:247-249 | Ids fit 16 bits, the permuted part 15. |
| `ResRandom.FirstCallReseeds` | openbsd-compat/res_random.c:238-241 | The first call of a run seeds the generator. |
| `ResRandom.SameEpochState` | openbsd-compat/res_random.c:228-250 | Within an epoch a call differs from an earlier one only by steps of the generator and the counter. |
| `ResRandom.NextEpochMsb` | openbsd-compat/res_random.c:225-225 | Neighbouring epochs have different top bits. |
| `ResRandom.DistinctIds` | openbsd-compat/res_random.c:247-249 | Distinct powers give distinct ids under one seed and table. |
| `Splay.Head.Splay` | openbsd-compat/sys/tree.h:209-245 | The top-down splay ends, keeps the in-order sequence, and leaves a root with only smaller keys to its left and only larger ones to its right: the key sought or a neighbour of it. |
| `Splay.Head.SplayMinMax` | openbsd-compat/sys/tree.h:247-278 | The same for the smallest or largest element, which becomes a root without left or right child. |
| `Splay.Head.RotateRight` | openbsd-compat/sys/tree.h:88-92 | A rotation at the root keeps the in-order sequence. |
| `Splay.Head.RotateLeft` | openbsd-compat/sys/tree.h:94-98 | The mirror image. |
| `Splay.Head.LinkLeft` | openbsd-compat/sys/tree.h:100-104 | The root joins the right assembly tree; what is in the three parts together stays the same. |
| `Splay.Head.LinkRight` | openbsd-compat/sys/tree.h:106-110 | The mirror image. |
| `Splay.Head.Assemble` | openbsd-compat/sys/tree.h:112-117 | The three parts become one tree with the in-order sequence of the start. |
| `Splay.Head.Find` | openbsd-compat/sys/tree.h:128-137 | The node with the key, now at the root, or none if there is none. |
| `Splay.Head.Insert` | openbsd-compat/sys/tree.h:164-186 | The element goes to its place in the sorted sequence, or the one with an equal key is returned and nothing is added. |
| `Splay.Head.Remove` | openbsd-compat/sys/tree.h:188-207 | Exactly the element with the key leaves the sequence. |
| `Splay.Head.RemoveRoot` | openbsd-compat/sys/tree.h:195-204 | Joining the subtrees of a removed root keeps their order; the re-splayed left subtree has no right child. |
| `Splay.BelowThenAbove` | openbsd-compat/sys/tree.h:198-203 | A tree of smaller keys splayed for a larger one has no right child at the root. |
| `Splay.Head.Min` | openbsd-compat/sys/tree.h:153-158 | The first element of the sequence, or none. |
| `Splay.Head.Next` | openbsd-compat/sys/tree.h:139-151 | The next element of the sequence, or none. |
| `Splay.SplayExit` | openbsd-compat/sys/tree.h:209-245 | When the loop stops, the three parts put together leave only smaller keys to the left and larger ones to the right of the root. |
| `Keys.CmpTotal` | usr.sbin/smtpd/dict.c:262-266 | strcmp on keys is a total order. |
| `Keys.CmpMeaning` | usr.sbin/smtpd/dict.c:262-266 | A key is less exactly if it is a proper beginning of the other or smaller at the first difference. |
| `Dict.Dict.CountIsSize` | usr.sbin/smtpd/dict.c:41-260 | In every valid state, the count is the number of keys of the map. |
| `Dict.Dict.Check` | usr.sbin/smtpd/dict.c:41-48 | Whether the key is in the map, which stays the same. |
| `Dict.Dict.Get` | usr.sbin/smtpd/dict.c:100-110 | The value of the key, or none. |
| `Dict.Dict.Set` | usr.sbin/smtpd/dict.c:67-86 | The map with the key set; the previous value is returned. |
| `Dict.Dict.Pop` | usr.sbin/smtpd/dict.c:124-140 | The map without the key; its value is returned. |
| `Dict.Dict.PopRoot` | usr.sbin/smtpd/dict.c:160-175 | Some key and its value leave a map that is not empty. |
| `Dict.Dict.Iter` | usr.sbin/smtpd/dict.c:192-212 | The entry behind the handle in ascending order, although the tree is reshaped. |
| `Dict.Dict.IterateAll` | usr.sbin/smtpd/dict.c:192-212 | Iterating to the end visits every key once, in ascending order. |
| `Dict.Dict.IterFromStart` | usr.sbin/smtpd/dict.c:220-231 | The first entry not below kfrom, or the first of all without kfrom; the temporary entry is gone afterwards. |
| `Dict.Dict.IterateFrom` | usr.sbin/smtpd/dict.c:214-245 | Iterating from kfrom, or from the start, visits exactly the keys not below it, in ascending order, and changes nothing. |
| `Dict.Dict.Merge` | usr.sbin/smtpd/dict.c:247-260 | The union of maps without a common key, the source left empty; a common key is the fatal case. |
| `Dict.MapOfSorted` | usr.sbin/smtpd/dict.c:41-260 | A sorted sequence of nodes is a map with one entry per node. |
| `RedBlack.Head.Insert` | openbsd-compat/sys/tree.h:595-624 | A search tree with right parent links, a black root, no red child of a red node and equal black heights stays one, with the element at its place; a duplicate changes nothing. |
| `RedBlack.Head.InsertColor` | openbsd-compat/sys/tree.h:407-449 | The fix-up loop restores the colours from one red node below a red one and keeps the sequence. |
| `RedBlack.Head.Remove` | openbsd-compat/sys/tree.h:527-592 | The same invariants after removal of exactly that element. |
| `RedBlack.Head.RemoveInner` | openbsd-compat/sys/tree.h:536-575 | A node with two children is replaced by its successor, in place and in colour. |
| `RedBlack.Head.Successor` | openbsd-compat/sys/tree.h:538-540 | The leftmost node of the right subtree. |
| `RedBlack.Head.ReplaceBy` | openbsd-compat/sys/tree.h:554-567 | The successor takes over the place and links of the removed node. |
| `RedBlack.Head.TakePlace` | openbsd-compat/sys/tree.h:556-567 | Links of parent and children point to the successor. |
| `RedBlack.Head.Splice` | openbsd-compat/sys/tree.h:576-587 | A node with at most one child is bypassed. |
| `RedBlack.Head.RemoveColor` | openbsd-compat/sys/tree.h:451-525 | The fix-up loop restores the black heights and keeps the sequence. |
| `RedBlack.Head.RotateLeft` | openbsd-compat/sys/tree.h:342-360 | A rotation with parent links keeps the sequence and swaps the two nodes. |
| `RedBlack.Head.RotateRight` | openbsd-compat/sys/tree.h:362-380 | The mirror image. |
| `RedBlack.Head.NFind` | openbsd-compat/sys/tree.h:644-663 | The first element not below the key, or none, after looking at no more than 2 lg(n + 1) of n nodes. |
| `RedBlack.Head.Next` | openbsd-compat/sys/tree.h:665-685 | The next element in order, found by parent links, or none. |
| `RbColour.HeightBound` | openbsd-compat/sys/tree.h:53-62 | A red-black tree with n nodes in order is at most 2 lg(n + 1) high. |
| `RbColour.Inserted` | openbsd-compat/sys/tree.h:407-449 | The state in which the insertion loop stops is a red-black tree. |
| `RbColour.Removed` | openbsd-compat/sys/tree.h:451-525 | The state in which the removal loop stops is a red-black tree. |
| `RbColour.Unlinked` | openbsd-compat/sys/tree.h:576-590 | Bypassing a black node leaves one black too few on its path, a red one nothing to fix. |
| `ImsgWire.EndToEnd` | openbsd-compat/imsg.c:54-180 | In every run of composes, partial sends and partial receives, the messages returned are a prefix of those composed, with equal type, ids, data and descriptor; no bad length is reported; when all has arrived, all is returned. |
| `ImsgWire.StepKeeps` | openbsd-compat/imsg-buffer.c:580-675 | Every step keeps the bytes and descriptors that are owed. |
| `ImsgWire.GetFirst` | openbsd-compat/imsg.c:131-180 | The first message is returned exactly when it has arrived in full, with its own descriptor. |
| `ImsgWire.GetMeaning` | openbsd-compat/imsg.c:131-180 | What imsg_get does with any bytes: it waits, fails exactly if the length in bytes 4 and 5 is below 16 or above 16384, or takes that many bytes, with a descriptor exactly if the flag is set and one is there. |
| `ImsgWire.NeverWedged` | openbsd-compat/imsg.c:137-150 | While a message is incomplete there is room to read more. |
| `ImsgWire.HeaderRoundTrip` | openbsd-compat/imsg.c:358-383 | A header read from memory is the header written. |
| `ImsgWire.WireLayout` | openbsd-compat/imsg.h:64-70 | A message byte by byte: type, length, flags, peer id and process id in little-endian order, the flag set exactly if a descriptor comes along, and the data from byte 16. |
| `Imsg.Ibuf.constructor` | openbsd-compat/imsg-buffer.c:41-85 | A new buffer is empty and within its bounds. |
| `Imsg.Ibuf.Add` | openbsd-compat/imsg-buffer.c:87-136 | Bytes go to the end if they fit below max; otherwise nothing changes. |
| `Imsg.Ibuf.Truncate` | openbsd-compat/imsg-buffer.c:363-376 | Shortening or padding with zeros. |
| `Imsg.Ibuf.Get` | openbsd-compat/imsg-buffer.c:405-416 | The first bytes are taken, or none if there are too few. |
| `Imsg.Ibuf.Advance` | openbsd-compat/imsg-buffer.c:588-593 | A partly sent buffer keeps its unsent bytes. |
| `Imsg.Msgbuf.Enqueue` | openbsd-compat/imsg-buffer.c:683-690 | The buffer goes to the end of the queue and is counted. |
| `Imsg.Msgbuf.Drain` | openbsd-compat/imsg-buffer.c:580-596 | Exactly the first n unsent bytes, or all if there are fewer, are gone and the count is right. |
| `Imsg.Msgbuf.Batch` | openbsd-compat/imsg-buffer.c:624-634 | One sendmsg offers buffers up to the first that carries a descriptor of its own. |
| `Imsg.Msgbuf.Write` | openbsd-compat/imsg-buffer.c:607-675 | What goes out is a prefix of the queue with a descriptor at most on its first byte; the rest stays queued. |
| `Imsg.Msgbuf.Flush` | openbsd-compat/imsg.c:433-440 | Flushing ends, and succeeds exactly if the queue is empty. |
| `Imsg.Imsgbuf.constructor` | openbsd-compat/imsg.c:43-52 | Both directions start empty. |
| `Imsg.Imsgbuf.Create` | openbsd-compat/imsg.c:358-383 | A header with the right type and ids, unless the message would be too long. |
| `Imsg.Imsgbuf.Close` | openbsd-compat/imsg.c:396-409 | Flag and length are filled in and the message is queued as a whole. |
| `Imsg.Imsgbuf.Compose` | openbsd-compat/imsg.c:241-257 | A message that fits is queued as it goes on the wire; any other is refused and nothing changes. |
| `Imsg.Imsgbuf.ComposeV` | openbsd-compat/imsg.c:259-281 | The same for data in pieces. |
| `Imsg.Imsgbuf.ComposeIbuf` | openbsd-compat/imsg.c:287-322 | Header and payload in two buffers look the same on the wire. |
| `Imsg.Imsgbuf.Read` | openbsd-compat/imsg.c:54-129 | Bytes go behind the unread ones; the first descriptor is kept and any further one closed. |
| `Imsg.Imsgbuf.GetMessage` | openbsd-compat/imsg.c:131-180 | The result, the message and what stays unread, in all three cases. |
| `ImsgChannel.Channel.Compose` | openbsd-compat/imsg.c:241-257 | On two channel ends joined by a socket, the message joins those composed. |
| `ImsgChannel.Channel.ComposeIbuf` | openbsd-compat/imsg.c:287-322 | The same for a payload in a buffer. |
| `ImsgChannel.Channel.Send` | openbsd-compat/imsg-buffer.c:607-675 | A send keeps the protocol invariant whatever sendmsg takes. |
| `ImsgChannel.Channel.Recv` | openbsd-compat/imsg.c:54-129 | A receive keeps it whatever part of the stream arrives. |
| `ImsgChannel.Channel.Next` | openbsd-compat/imsg.c:131-180 | The message returned is the next one composed; it is never an error; at the end all have been returned. |
| `Calendar.FromUtcAndBack` | openbsd-compat/libtls/a_time_posix.c:112-183 | Every valid date-time of years 0 to 9999 is recovered from its time. |
| `Calendar.ToUtcAndBack` | openbsd-compat/libtls/a_time_posix.c:112-183 | Every time in range is the time of a valid date-time; outside the range there is none. |
| `Calendar.FromUtcCounts` | openbsd-compat/libtls/a_time_posix.c:112-136 | A conversion succeeds exactly on valid date-times and counts the seconds of whole years and months since year 0. |
| `Calendar.KnownTimes` | openbsd-compat/libtls/a_time_posix.c:112-136 | The epoch is 0 and the second before it -1. |
| `Calendar.DaysCounted` | openbsd-compat/libtls/a_time_posix.c:121-131 | The closed formula for days equals the sum of year and month lengths. |
| `Calendar.PosixDays` | openbsd-compat/libtls/a_time_posix.c:121-131 | The intermediate values of the conversion stay within 64 bits. |
| `Calendar.YearOfEra` | openbsd-compat/libtls/a_time_posix.c:163-166 | The year found is the one the day lies in. |
| `Calendar.DateOf` | openbsd-compat/libtls/a_time_posix.c:159-176 | The date found is valid and has the day number it was found from. |
| `Calendar.SplitDay` | openbsd-compat/libtls/a_time_posix.c:153-158 | Seconds before 1970 are split toward minus infinity although division truncates. |
| `Calendar.Clock` | openbsd-compat/libtls/a_time_posix.c:177-180 | Hours, minutes and seconds add up to the rest of the day. |
| `Calendar.ValidDates` | openbsd-compat/libtls/a_time_posix.c:50-82 | Valid dates are those within the length of their month, with the Gregorian leap rule. |
| `Calendar.KnownLeapDays` | openbsd-compat/libtls/a_time_posix.c:50-82 | A leap day in 2000, and none in 1900. |
| `Calendar.Monotone` | openbsd-compat/libtls/a_time_posix.c:112-136 | Earlier date-times have smaller times, and conversely. |
| `Calendar.InRange` | openbsd-compat/libtls/a_time_posix.c:95-105 | Times of valid date-times are between the two limits. |
| `Calendar.Ends` | openbsd-compat/libtls/a_time_posix.c:95-98 | The two limits are the first and the last second of the years 0 to 9999. |
| `Calendar.TmRoundTrip` | openbsd-compat/libtls/a_time_posix.c:185-210 | Every POSIX time in range, and no other, becomes a struct tm, which converts back to it. |
| `Calendar.TmAndBack` | openbsd-compat/libtls/a_time_posix.c:185-210 | Every struct tm with a POSIX time is recovered from it. |
| `Calendar.AdjMoves` | openbsd-compat/libtls/a_time_posix.c:254-278 | An adjustment succeeds exactly if the adjusted time is in range, moves by days and seconds, and does not overflow. |
| `Calendar.DiffSplits` | openbsd-compat/libtls/a_time_posix.c:280-302 | A difference exists exactly for valid times and adds up, with both parts of the same sign. |
| `Calendar.AdjThenDiff` | openbsd-compat/libtls/a_time_posix.c:254-302 | The difference from the old to the adjusted time is the requested offset. |
| `Dname.ExpandMeaning` | openbsd-compat/libasr/asr_utils.c:116-167 | dname_expand reads exactly the names of section 4.1.4 of RFC 1035, with pointers as the low 14 bits of two bytes, whose pointers all lead before the start of their run. |
| `Dname.PointerIs14Bits` | openbsd-compat/libasr/asr_utils.c:130-133 | A pointer is the low 14 bits of its two bytes. |
| `Dname.PointerReadBack` | openbsd-compat/libasr/asr_utils.c:130-140 | A pointer to any place below 16384 in front of the run leads there. |
| `Dname.CompressedReadBack` | openbsd-compat/libasr/asr_utils.c:116-167 | A name written as its first labels and a pointer to the rest is read back as those labels and the rest. |
| `Dname.WalkStable` | openbsd-compat/libasr/asr_utils.c:116-167 | A packet and an offset determine the name. |
| `Dname.ExpandName` | openbsd-compat/libasr/asr_utils.c:116-167 | The loop ends on every packet, stays within it, writes no more than the buffer, if there is one, and returns an offset past the old one and at most the length. |
| `Dname.EndBounds` | openbsd-compat/libasr/asr_utils.c:116-167 | The reported offset lies behind the name and within the packet. |
| `Dname.FinalIsOwn` | openbsd-compat/libasr/asr_utils.c:129-167 | The reported offset is the furthest end of the run of the name and of all runs that pointers lead to; it is the end of the name itself exactly if none of these runs ends later. |
| `Dname.FinalIsNotAlwaysOwn` | openbsd-compat/libasr/asr_utils.c:136-160 | A packet for which it is not. |
| `Dname.ExpandWire` | openbsd-compat/libasr/asr_utils.c:116-167 | A name written in full is read back, with the offset right behind it. |
| `Dname.FromFqdn` | openbsd-compat/libasr/asr_utils.c:66-114 | The wire form of a dotted name, as far as the buffer goes if there is one, and its length; or -1 if the name is not accepted. |
| `Dname.FqdnIsText` | openbsd-compat/libasr/asr_utils.c:66-114 | The names accepted are exactly the dotted texts of labels of 1 to 63 bytes. |
| `Dname.WireLength` | openbsd-compat/libasr/asr_utils.c:66-114 | The wire form is one byte longer than the text of a non-root name. |
| `Dname.ToText` | openbsd-compat/libasr/asr.c:877-905 | The text of a wire name, or its beginning with a final dot if the buffer is too small. |
| `DnsPacket.QuestionRoundTrip` | openbsd-compat/libasr/asr_utils.c:274-282 | A packed question is unpacked unchanged anywhere in a packet. |
| `DnsPacket.HeaderReadBack` | openbsd-compat/libasr/asr_utils.c:259-272 | A packed header is unpacked unchanged. |
| `DnsPacket.OptAccepted` | openbsd-compat/libasr/asr_utils.c:422-439 | The EDNS0 record parses as one whole record. |
| `DnsPacket.RrsAreAChain` | openbsd-compat/libasr/res_send_async.c:768-770 | Records read without error are records in the sense of RecordMeaning, one behind the other. |
| `DnsPacket.ChainIsRrs` | openbsd-compat/libasr/res_send_async.c:768-770 | Records one behind the other are read without error, each to its end. |
| `DnsPacket.RecordMeaning` | openbsd-compat/libasr/asr_utils.c:284-361 | A record is read without error exactly if a name that fits is followed by type, class, time to live, a length within the packet, and data that fills that length: a name, a preference and a name, two names and five numbers, four or sixteen bytes of address, or anything, by type. |
| `DnsPacket.DataMeaning` | openbsd-compat/libasr/asr_utils.c:304-358 | The data of a record fills its length exactly if it has the layout of its type. |
| `DnsPacket.QuestionMeaning` | openbsd-compat/libasr/asr_utils.c:274-282 | A question is read without error exactly if a name that fits is followed by type and class. |
| `DnsPacket.WireString` | openbsd-compat/libasr/asr_utils.c:388-395 | The C string of a wire name ends at its own terminator. |
| `DnsPacket.Unpack.Data` | openbsd-compat/libasr/asr_utils.c:187-202 | Bytes are taken within the packet, and nothing more after an error. |
| `DnsPacket.Unpack.Name` | openbsd-compat/libasr/asr_utils.c:238-257 | A name, or the error that stops all further reading. |
| `DnsPacket.Unpack.Header` | openbsd-compat/libasr/asr_utils.c:259-272 | The header fields in host order. |
| `DnsPacket.Unpack.Query` | openbsd-compat/libasr/asr_utils.c:274-282 | Name, type and class of a question. |
| `DnsPacket.Unpack.Rr` | openbsd-compat/libasr/asr_utils.c:284-361 | If there is no error, a record is there, and owner, type, class, time to live and data are what stands in it. |
| `DnsPacket.Unpack.Rdata` | openbsd-compat/libasr/asr_utils.c:306-351 | The values of the data, by type: names, preference, serial number and times, address, or the bytes themselves. |
| `DnsPacket.Unpack.SoaData` | openbsd-compat/libasr/asr_utils.c:325-333 | The seven values of SOA data: two names, and five numbers in the last twenty bytes. |
| `DnsPacket.Pack.Data` | openbsd-compat/libasr/asr_utils.c:363-378 | All of the bytes are appended, or none from the first failure on. |
| `DnsPacket.Pack.Header` | openbsd-compat/libasr/asr_utils.c:397-410 | The header in network order. |
| `DnsPacket.Pack.Query` | openbsd-compat/libasr/asr_utils.c:412-420 | Name, type and class are appended. |
| `DnsPacket.Pack.Edns0` | openbsd-compat/libasr/asr_utils.c:422-439 | The OPT record of section 6.1.2 of RFC 6891 is appended. |
| `DnsQuery.AcceptedIsGood` | openbsd-compat/libasr/res_send_async.c:715-790 | A packet is accepted exactly if, byte for byte, id, opcode, response bit, question and truncation flag are right and as many records as announced, each laid out as in RecordMeaning, fill it to the last byte. |
| `DnsQuery.HeaderMeaning` | openbsd-compat/libasr/res_send_async.c:726-744 | The header checks, the truncation flag and the number of records, in terms of the twelve bytes. |
| `DnsQuery.TruncatedIsTold` | openbsd-compat/libasr/res_send_async.c:749-766 | A truncated answer with the right header and question is told from a bad one. |
| `DnsQuery.AcceptedNames` | openbsd-compat/libasr/res_send_async.c:749-759 | The question of an accepted packet names what was asked, up to case. |
| `DnsQuery.StringsAreNames` | openbsd-compat/libasr/res_send_async.c:753-755 | Comparing the C strings compares the names, even if labels of the answer contain zero bytes. |
| `DnsQuery.StrCaseEqual` | openbsd-compat/libasr/res_send_async.c:755-755 | strcasecmp as a test for equality. |
| `DnsQuery.CaseMeaning` | openbsd-compat/libasr/res_send_async.c:755-755 | Letters match without regard to case, other bytes only themselves. |
| `DnsQuery.ValidatePacket` | openbsd-compat/libasr/res_send_async.c:715-790 | The verdict on a packet, and the response code and answer count noted on the way. |
| `DnsQuery.OwnAnswerAccepted` | openbsd-compat/libasr/res_send_async.c:360-440 | The packet of a query with the response bit set is accepted as its answer, with or without EDNS0. |
| `DnsQuery.SetupQuery` | openbsd-compat/libasr/res_send_async.c:360-440 | Exactly the names of valid labels that fit the packet give a query, and the packet is that query. |
| `DnsQuery.QueryLayout` | openbsd-compat/libasr/res_send_async.c:395-418 | The packet of a query byte by byte: id, the flags for recursion, AD and CD exactly as asked for, one question, and with EDNS0 the record that announces 4096 bytes and DNSSEC. |
| `DnsQuery.MakeFqdnIsFull` | openbsd-compat/libasr/asr.c:480-509 | The result is the full name, which ends in a dot, or 0 if it does not fit or the domain is refused. |
| `DnsQuery.NameRoundTrip` | openbsd-compat/libasr/asr_utils.c:66-114 | From text to wire, through pack and unpack, and back to text, nothing changes. |
| `ResSend.Query.Resolve` | openbsd-compat/libasr/res_send_async.c:154-312 | Whatever the system calls return, a query ends with its socket closed. It succeeds exactly if some step receives a packet that is accepted, over UDP or TCP, and then hands out that packet, without the AD bit unless trusted, the nameserver in turn and the verdict its bytes give; otherwise every nameserver had exactly ac_nsretries turns, memory ran out, or there is none. |
| `ResSend.Query.Run` | openbsd-compat/libasr/res_send_async.c:154-312 | One call ends, either done or waiting on an open socket with a smaller measure; the states it passes through extend the trace, each following from the one before by what the system calls return. |
| `ResSend.Query.Step` | openbsd-compat/libasr/res_send_async.c:157-311 | Each case of the switch: the next state, the packet, the bytes sent and got, the turn and the result, exactly, from the state before and what the system calls return; and a smaller measure of turns, phase and bytes. |
| `ResSend.Query.Outcome` | openbsd-compat/libasr/res_send_async.c:199-274 | In a finished trace the query succeeded exactly if some step accepted a packet, and with that packet. |
| `ResSend.Query.TruncatedGoesToTcp` | openbsd-compat/libasr/res_send_async.c:199-218 | In every trace, a truncated UDP answer to the question asked leads to TCP in the same turn, unless truncation is ignored. |
| `ResSend.Query.FailureGoesOn` | openbsd-compat/libasr/res_send_async.c:171-238 | In every trace, a step that fails to send, to connect or to hear leads to the next turn, or to the end with ETIMEDOUT exactly if all turns are over. |
| `ResSend.HeardInOrder` | openbsd-compat/libasr/res_send_async.c:608-688 | However a TCP answer is cut into pieces, what was got is a beginning of what is got later, and a packet is whole exactly when it is as long as its two length bytes say. |
| `ResSend.VerdictOfPacket` | openbsd-compat/libasr/res_send_async.c:276-303 | The verdict on a packet from its bytes: answers, or else name error 3 means host not found, server failure 2 try again, 0 no data, anything else no recovery. |
| `ResSend.ClearAdMeaning` | openbsd-compat/libasr/res_send_async.c:793-807 | Clearing the AD bit changes the fourth byte by 32 if the bit is set, and nothing else. |
| `ResSend.Query.IterNs` | openbsd-compat/libasr/res_send_async.c:814-836 | The nameservers take turns in a cycle, the index stays in range, and the time to wait is that of the turn. |
| `ResSend.Query.SetTimeout` | openbsd-compat/libasr/res_send_async.c:829-833 | The time to wait doubles in each cycle, is shared by the nameservers from the second cycle on, and is at least a second. |
| `ResSend.Query.WaitDoubles` | openbsd-compat/libasr/res_send_async.c:829-833 | Turns of the first cycle wait for the configured time, those of later cycles twice as long as the same turn a cycle before, but for rounding. |
| `ResSend.Query.UdpSend` | openbsd-compat/libasr/res_send_async.c:447-473 | An open socket on success, a closed one otherwise. |
| `ResSend.Query.UdpRecv` | openbsd-compat/libasr/res_send_async.c:480-510 | The socket is closed, and a packet is taken only after it has been checked. |
| `ResSend.Query.TcpWrite` | openbsd-compat/libasr/res_send_async.c:518-600 | What has been sent is a prefix of the length and the packet. |
| `ResSend.Query.TcpRead` | openbsd-compat/libasr/res_send_async.c:608-688 | What has been read is the length and so much of the packet; a complete packet is checked. |
| `ResSend.Query.ReadLength` | openbsd-compat/libasr/res_send_async.c:617-653 | The two bytes of the length, however they arrive. |
| `ResSend.Query.ReadRest` | openbsd-compat/libasr/res_send_async.c:655-688 | The bytes of the packet, however they arrive. |
| `ResSend.Query.NextNs` | openbsd-compat/libasr/res_send_async.c:171-184 | The next turn with its time to wait, or the end after all turns. |
| `ResSend.Query.Ask` | openbsd-compat/libasr/res_send_async.c:186-197 | A query that went out is waited for; otherwise the next nameserver is tried. |
| `ResSend.Query.Hear` | openbsd-compat/libasr/res_send_async.c:199-218 | An accepted answer is handed out, a truncated one leads to TCP unless that is to be ignored, any other to the next nameserver. |
| `ResSend.Query.Write` | openbsd-compat/libasr/res_send_async.c:220-238 | Writing goes on, reading starts, or the next nameserver is tried. |
| `ResSend.Query.Read` | openbsd-compat/libasr/res_send_async.c:240-259 | Reading goes on, a packet is accepted, or the next nameserver is tried. |
| `ResSend.Query.Packet` | openbsd-compat/libasr/res_send_async.c:261-274 | The packet handed out is the one checked, from the nameserver in turn. |
| `ResSend.EqualTurns` | openbsd-compat/libasr/res_send_async.c:814-836 | In complete rounds every nameserver has equally many turns. |
| `Bounce.Engine.Run` | usr.sbin/smtpd/bounce.c:123-777 | After any run of events, exactly the ids that came with the events are accounted for, the counters are right, and messages that wait are not forgotten; each state follows from the one before by the event, if it could occur, down to the messages left waiting, the sessions, the reports, the sockets asked for and the timer. |
| `Bounce.Engine.Handle` | usr.sbin/smtpd/bounce.c:123-777 | Every event keeps conservation and progress; messages waiting, sessions, reports, running count and timer afterwards are given exactly. |
| `Bounce.Engine.Dispatch` | usr.sbin/smtpd/bounce.c:703-777 | An event of the io of a session leads to at most one call of bounce_io: input only while the session reads, the low-water mark only while it writes, so that neither io_set_write nor io_set_read can fail. What it does to messages, sessions, reports, running count and timer is given exactly. |
| `Bounce.InOnePlace` | usr.sbin/smtpd/bounce.c:123-236 | An id added once is in exactly one waiting message, held message or report. |
| `Bounce.NotStuck` | usr.sbin/smtpd/bounce.c:246-294 | While messages wait, a socket is coming, a session is at work, or the timer goes off by the time the first is due; the io of every session is armed for an event. |
| `Bounce.DeliveredIsAccepted` | usr.sbin/smtpd/bounce.c:715-760 | In every run, an id reported as delivered was in a message held by a session in DATA_END when that session got a 2xx response. |
| `Bounce.OkMeansAccepted` | usr.sbin/smtpd/bounce.c:742-750 | Only such a response, heard by a session that reads, makes a report of delivery. |
| `Bounce.ResponseReports` | usr.sbin/smtpd/bounce.c:603-686 | What a response means for the envelopes of the message held: none before the end of the data if it is 2xx or 3xx; otherwise each is delivered for 2xx, fails for good for 5xx and 6xx, and for now for anything else. |
| `Bounce.Conversation` | usr.sbin/smtpd/bounce.c:407-600 | The commands of a session whose responses succeed, in order, from EHLO to CLOSE; any failing response lets the message go and leads to QUIT. |
| `Bounce.Engine.Add` | usr.sbin/smtpd/bounce.c:123-203 | The envelope joins the waiting message of its kind, which moves to the end, or starts one; one that cannot be loaded is reported. |
| `Bounce.Engine.AddLoaded` | usr.sbin/smtpd/bounce.c:144-199 | The envelope joins its message at the end of the list, and list and splay tree agree afterwards. |
| `BounceTree.KeyOrder` | usr.sbin/smtpd/bounce.c:779-794 | bounce_message_cmp orders keys like the strings that stand for them in the splay tree. |
| `BounceTree.KeyTextInjective` | usr.sbin/smtpd/bounce.c:779-794 | Different keys have different strings. |
| `BounceTree.MessageTree.Find` | usr.sbin/smtpd/bounce.c:161 | Whether a message is filed under the key. |
| `BounceTree.MessageTree.Insert` | usr.sbin/smtpd/bounce.c:174 | The splay tree holds one more key. |
| `BounceTree.MessageTree.Remove` | usr.sbin/smtpd/bounce.c:387 | The splay tree holds all other keys. |
| `Bounce.Engine.Fd` | usr.sbin/smtpd/bounce.c:205-236 | A session starts for the first waiting message, or the request is taken back. |
| `Bounce.Engine.Timeout` | usr.sbin/smtpd/bounce.c:238-244 | The timer event keeps everything and drains. |
| `Bounce.Engine.Drain` | usr.sbin/smtpd/bounce.c:246-294 | At most two sessions run; enough are asked for, nothing waits, or the timer is set; running count and timer are given exactly. |
| `Bounce.DrainMeaning` | usr.sbin/smtpd/bounce.c:246-294 | Sockets are asked for only if the first message is due, and up to two or the number of messages; if it is not due yet, the timer is set for it. |
| `Bounce.Engine.NextMessage` | usr.sbin/smtpd/bounce.c:364-405 | The choice of PickFrom: message taken, messages left, and reports, exactly; list and splay tree agree. |
| `BounceQueue.PickMeaning` | usr.sbin/smtpd/bounce.c:364-405 | Of the messages that are due under the session's name, in order, those before the first that opens are reported as failing, that one is taken, and all others stay in order. |
| `BounceQueue.PickIsDue` | usr.sbin/smtpd/bounce.c:364-405 | The message taken and those that fail are due and of the session's name; if none is taken, none that is left is. |
| `Bounce.Engine.Next` | usr.sbin/smtpd/bounce.c:407-600 | The order of the commands, with the message taken, the messages left and the reports; a message is held exactly from RCPT to DATA_END; no other state occurs. |
| `Bounce.Engine.FetchMessage` | usr.sbin/smtpd/bounce.c:421-434 | The session takes the message chosen and goes on to RCPT, or closes if there is none. |
| `Bounce.Engine.Deliver` | usr.sbin/smtpd/bounce.c:603-655 | Every envelope of the message is reported once. |
| `Bounce.Engine.Status` | usr.sbin/smtpd/bounce.c:657-686 | A held message is reported and let go. |
| `Bounce.Engine.Free` | usr.sbin/smtpd/bounce.c:688-701 | The session is gone and the engine drained. |
| `Bounce.Engine.DataIn` | usr.sbin/smtpd/bounce.c:715-760 | A response moves the session on, with the messages left and all reports given exactly. Input is announced only to an io that wants it, so the session reads and io_set_write does not fail. |
| `Bounce.Engine.Answer` | usr.sbin/smtpd/bounce.c:742-760 | A failing response is reported and ends the session after QUIT; after any other the next command goes out, with the message taken if it is time for one. |
| `Bounce.Engine.LoWat` | usr.sbin/smtpd/bounce.c:762-770 | Output gone leads to more of the message or to reading. The low-water mark is announced only to an io that wants to write, so io_set_read does not fail. |
| `Bounce.Engine.NextPiece` | usr.sbin/smtpd/bounce.c:762-768 | More of the message goes out and the mode stays, or the message is reported and the session freed. |
| `Bounce.Engine.Drained` | usr.sbin/smtpd/ioev.c:693-709 | A write that leaves output queued changes only the amount. |
| `Bounce.Engine.IoError` | usr.sbin/smtpd/bounce.c:772-775 | A lost connection is reported and the session freed. |
| `Bounce.Engine.GiveUp` | usr.sbin/smtpd/bounce.c:719-723 | The held message is reported as failing for now, the session is gone and the engine drained. |
| `Base64.DecodeIsInverse` | openbsd-compat/base64.c:189-305 | The strings that decode are exactly the encodings, each to what was encoded. |
| `Base64.RoundTrip` | openbsd-compat/base64.c:129-305 | What is encoded decodes to itself, given one byte more than it takes. |
| `Base64.SameBits` | openbsd-compat/base64.c:129-181 | The digits are the bits of the bytes, in order, with zeros up to a multiple of six. |
| `Base64.Ntop` | openbsd-compat/base64.c:129-181 | The encoding and a terminator are written, or -1 if they do not fit. |
| `Base64.Pton` | openbsd-compat/base64.c:189-305 | With white space removed, exactly the encodings whose bytes fit are decoded. |
| `Base64.Finish` | openbsd-compat/base64.c:253-304 | Padding must fit the digits, and no bits may be left over. |
| `Base64.PutDigit` | openbsd-compat/base64.c:210-250 | One digit more in the target. |
| `Base64.TableIsABijection` | openbsd-compat/base64.c:206-208 | The table and the search in it are inverse. |
| `Base64.TableIsTheAlphabet` | openbsd-compat/base64.c:62-64 | The table is A to Z, a to z, 0 to 9, plus and slash. |
| `Base64.Vectors` | openbsd-compat/base64.c:129-181 | Encodings of one and two bytes, as in section 10 of RFC 4648, and the last two digits. |
| `Base64.LongVectors` | openbsd-compat/base64.c:129-181 | The encodings of no and of six bytes of section 10 of RFC 4648. |
| `Base64.OrIsSum` | openbsd-compat/base64.c:223-223 | The bits merged into a byte do not overlap. |
| `Envelope.RoundTrip` | usr.sbin/smtpd/envelope.c:73-211 | Writing an envelope and reading it gives back every field, whatever the order of the dictionary, but for zeros in those of another type of delivery, the times of a bounce that is not about a delay, and a status code without class; this exactly if no string or user name starts with a blank, no domain has an '@', no time is negative, the version is 3, and the text fits the buffer of the reader. |
| `Envelope.DumpText` | usr.sbin/smtpd/envelope.c:159-211 | The file written for every envelope, line by line with the literal names of all fields in order; fields with an empty text are left out. |
| `Envelope.KeptIsWritten` | usr.sbin/smtpd/envelope.c:159-211 | A field that is not written is zero or one of those not kept. |
| `Envelope.DumpLoads` | usr.sbin/smtpd/envelope.c:73-211 | For every envelope: reading fails exactly if the text is too long or a saved field cannot be read; otherwise saved fields are what they are read as, and all others zero. |
| `Envelope.FieldsLoad` | usr.sbin/smtpd/envelope.c:478-495 | Loading the entries of the dictionary in any order gives the same fields. |
| `Envelope.LinesParse` | usr.sbin/smtpd/envelope.c:73-114 | The lines written make a dictionary of the fields saved, without leading blanks. |
| `Envelope.ValueReadBack` | usr.sbin/smtpd/envelope.c:213-371 | A value of each kind is read back exactly if it is clean. |
| `Envelope.KnownFlags` | usr.sbin/smtpd/envelope.c:557-579 | The words for flags, with blanks between. |
| `Envelope.NamesDiffer` | usr.sbin/smtpd/envelope.c:373-476 | No two fields have the same name up to case. |
| `Envelope.DumpBuffer` | usr.sbin/smtpd/envelope.c:159-210 | The dump line by line, or nothing if it does not fit. |
| `Envelope.BufferToDict` | usr.sbin/smtpd/envelope.c:73-117 | The loop over the lines, and its failure on a line that is no field or lacks its newline. |
| `Envelope.LoadBuffer` | usr.sbin/smtpd/envelope.c:119-157 | Version check and loading, field by field. |
| `EnvelopeText.LineReadBack` | usr.sbin/smtpd/envelope.c:86-109 | A line is read back as name and value without leading blanks. |
| `EnvelopeText.LineMeaning` | usr.sbin/smtpd/envelope.c:86-109 | A line is read as name and value exactly if it is the name, a colon with any blanks around it, and the value. |
| `EnvelopeText.NoFinalNewline` | usr.sbin/smtpd/envelope.c:73-114 | Text that does not end with a newline is refused. |
| `EnvelopeText.NumberReadBack` | usr.sbin/smtpd/envelope.c:213-254 | A number is read back exactly if it is within the limits. |
| `EnvelopeText.MailReadBack` | usr.sbin/smtpd/to.c:65-102 | An address is read back exactly if the user does not start with a blank and the domain has no '@'. |
| `Iobuf.ReadLines` | usr.sbin/smtpd/iobuf.c:159-221 | However a stream is cut into reads, the lines returned are its lines; the end is reached exactly if every line fits the buffer. |
| `Iobuf.LinesUnique` | usr.sbin/smtpd/iobuf.c:159-185 | A stream is cut into lines in one way only. |
| `Iobuf.ShortTail` | usr.sbin/smtpd/iobuf.c:203-221 | While more is to come, an unfinished line does not fill the buffer. |
| `Iobuf.Input.GetLine` | usr.sbin/smtpd/iobuf.c:159-185 | The first line leaves the buffer, or there is none. |
| `Iobuf.Input.Normalize` | usr.sbin/smtpd/iobuf.c:187-201 | The unread bytes move to the front. |
| `Iobuf.Input.Read` | usr.sbin/smtpd/iobuf.c:203-221 | Bytes go behind the unread ones. |
| `Iobuf.Input.Drop` | usr.sbin/smtpd/iobuf.c:148-157 | The first bytes are gone, or all. |
| `Iobuf.Iobuf.Reserve` | usr.sbin/smtpd/iobuf.c:255-274 | Room behind all queued bytes, in the last segment or a new one; none for no bytes. |
| `Iobuf.Iobuf.Alloc` | usr.sbin/smtpd/iobuf.c:223-247 | A new segment at the end of the chain. |
| `Iobuf.Iobuf.Queue` | usr.sbin/smtpd/iobuf.c:276-290 | The bytes go behind all others. |
| `Iobuf.Iobuf.QueueV` | usr.sbin/smtpd/iobuf.c:292-314 | The pieces go behind all others, in order. |
| `Iobuf.Iobuf.Drain` | usr.sbin/smtpd/iobuf.c:81-101 | The first n bytes are gone, and the count is the sum over the segments. |
| `Iobuf.Iobuf.Write` | usr.sbin/smtpd/iobuf.c:346-375 | Bytes written and bytes still queued are the bytes queued, in order. |
| `Iobuf.Iobuf.Gather` | usr.sbin/smtpd/iobuf.c:354-361 | The vector offered is the front of the queue. |
| `Iobuf.Iobuf.Flush` | usr.sbin/smtpd/iobuf.c:377-387 | Flushing ends; on success everything has been written. |
| `Ioev.System.Run` | usr.sbin/smtpd/ioev.c:183-731 | A run of calls and events keeps frames apart and ends with no io held and every io armed for exactly what mode, pauses and queue want, each step leaving the live ios in the states its call or its callbacks give them; it stops early exactly at an event for input and output at once that takes the queue to the mark and whose callback for the low-water mark frees the io; if all ios are in half duplex and no new one is made, it never does. |
| `Ioev.System.Step` | usr.sbin/smtpd/ioev.c:183-731 | One call or event; an event counts if its io is live and armed for it. The states of all live ios afterwards are given. |
| `Ioev.System.Dispatch` | usr.sbin/smtpd/ioev.c:678-731 | One event with its callbacks, which may free the io; what the callbacks are told is given exactly, in half duplex input only while reading and the low-water mark only while writing; the states of all ios afterwards are those after the output written and all calls of the callbacks; it goes wrong exactly if the callback for the low-water mark frees an io that is ready for input at the same time. |
| `Ioev.UseAfterFree` | usr.sbin/smtpd/ioev.c:693-725 | It does go wrong: a full-duplex io with output queued becomes ready for both, all output is written, and the callback frees the io. |
| `Ioev.System.Serve` | usr.sbin/smtpd/ioev.c:693-725 | Within the frame: output, then input, with the states after both. |
| `Ioev.BecomesBoth` | usr.sbin/smtpd/ioev.c:733-737 | Two rounds of calls do what all the calls do together: which ios are freed, how many are new, and the state of every other one. |
| `Ioev.ToldIsCanTell` | usr.sbin/smtpd/ioev.c:678-731 | Some event an io is armed for makes the callback hear of input exactly if the io wants input, of the low-water mark exactly if it wants output and has more queued than the mark, and of anything else exactly if it is armed at all. |
| `Ioev.HearsInput` | usr.sbin/smtpd/ioev.c:711-725 | The callback hears of input exactly if the event is for reading and brings some, unless a write in the same event fails; no such event occurs while the io is paused for input or writes only, and otherwise one can. |
| `Ioev.HearsRoom` | usr.sbin/smtpd/ioev.c:693-709 | The callback hears of the low-water mark exactly if a write takes the queue from above it to it or below; no such event occurs while the io is paused for output, reads only or has nothing queued, and otherwise one can. |
| `Ioev.HearsEnd` | usr.sbin/smtpd/ioev.c:684-725 | A timeout, or a closed or failing connection, is heard of, and nothing else with it. |
| `Ioev.PausedHearsNothing` | usr.sbin/smtpd/ioev.c:342-358 | In every run, from io_pause for input until io_resume for input an io hears of no input, and from io_pause for output until io_resume for output of no low-water mark, whatever callbacks and other calls come between. |
| `Ioev.StaysPaused` | usr.sbin/smtpd/ioev.c:351-358 | Only io_resume ends a pause. |
| `Ioev.HalfDuplex` | usr.sbin/smtpd/ioev.c:678-731 | In half duplex an event leads to at most one callback. |
| `Ioev.System.Do` | usr.sbin/smtpd/ioev.c:263-390 | Any call does to its io what it says, and keeps every other io as it is and armed as it wants. |
| `Ioev.Io.Change` | usr.sbin/smtpd/ioev.c:263-430 | The state of an io after each call for it; unless held, it stays armed as it wants. |
| `Ioev.System.Callback` | usr.sbin/smtpd/ioev.c:733-737 | Any sequence of calls leaves every io that it does not free in the state the calls give it, armed as it wants unless held, and new ones untouched. |
| `Ioev.System.Tell` | usr.sbin/smtpd/ioev.c:733-737 | A callback does exactly its calls. |
| `Ioev.System.FrameEnter` | usr.sbin/smtpd/ioev.c:183-196 | A frame opens only when none is open. |
| `Ioev.System.FrameLeave` | usr.sbin/smtpd/ioev.c:198-228 | The io is armed again, unless it was freed. |
| `Ioev.System.Output` | usr.sbin/smtpd/ioev.c:693-709 | The output half of an event: the queue is shortened, and the callback does its calls. |
| `Ioev.System.Input` | usr.sbin/smtpd/ioev.c:711-725 | The input half of an event: the callback does its calls. |
| `Ioev.Io.Reload` | usr.sbin/smtpd/ioev.c:521-584 | A held io is left alone; any other is armed for reading exactly if it is not paused for input and may read, and for writing exactly if it is not paused for output, may write and has something queued. |
| `Ioev.Io.SetRead` | usr.sbin/smtpd/ioev.c:360-374 | Reading only; allowed unless reading already. |
| `Ioev.Io.SetWrite` | usr.sbin/smtpd/ioev.c:376-390 | Writing only; allowed unless writing already. |
| `Ioev.Io.Pause` | usr.sbin/smtpd/ioev.c:342-349 | Pause flags are added. |
| `Ioev.Io.Resume` | usr.sbin/smtpd/ioev.c:351-358 | Pause flags are removed. |
| `Ioev.Io.Queue` | usr.sbin/smtpd/ioev.c:420-430 | Queued output is counted. |

## Left out

- Allocation failure, except where the source reacts to it in a way that matters (the
  permutation table of the id generator, the input buffer of the resolver).
- Retry loops on EINTR, and lengths near SIZE_MAX that would wrap.
- The system calls themselves: sockets, libevent, clocks and random sources are parameters.
- Imsg.Ibuf.Add: storage is a sequence of the buffer's size, so growing it is not seen as a
  move of memory. The same holds of `Iobuf.Iobuf.Alloc` and the segments of the output queue.
- Host byte order in imsg headers is little-endian.
- `imsg_forward`, the typed accessors of ibufs and the getters of imsg.
- Imsg.Imsgbuf.ComposeIbuf: only for a payload that is not empty and has no descriptor.
- ImsgChannel.Channel.ComposeIbuf: the same.
- Imsg.Msgbuf.Drain: the bytes that go carry no descriptor; the callers send it first.
- Imsg.Imsgbuf.Read: a full descriptor table, which puts reading off, and a recvmsg that fails.
- `RB_FIND`, `RB_PREV` and `RB_MINMAX`, and RB_AUGMENT, which is empty.
- The variants of dict operations that end the program (`dict_xset`, `dict_xget`,
  `dict_xpop`), and `dict_root`.
- Keys of trees are sequences compared like strings, for `Splay` and `RedBlack` too; the
  comparison function of the macros is not a parameter. `BounceTree.KeyOrder` shows how
  another order fits in.
- ResRandom.PMod: for bases and moduli up to the square root of the largest int, which
  covers both moduli in use.
- Calendar.TmRoundTrip: the fields of struct tm that the code does not compute are not
  modelled, nor are systems with a 32-bit time_t.
- ResSend.Query.Resolve: every successful send or read moves at least one byte.
- ResSend.Query.SetTimeout: on unbounded integers, without the overflow of a shifted int.
- ResSend.Query.TcpWrite: the branch for systems with SO_NOSIGPIPE is not modelled.
- ResSend.Query.UdpRecv: a system call that fails does not leave EOVERFLOW in errno; with
  RES_IGNTC a packet whose records are cut off is handed out
  although its records do not parse, as in the source.
- DnsQuery.SetupQuery: type and class fit 16 bits; the output buffer is the one allocated
  here, not one of the caller.
- Dname.FromFqdn: a buffer, if there is one, has room for at least one byte, as the source
  assumes before it stores the first length.
- Iobuf.Iobuf.Flush: a writev that does not fail takes at least one byte.
- The other asynchronous lookups of the resolver, resolv.conf and the hosts file.
- Bounce.Engine.DataIn: the text of commands and notices, and copying the message, are
  reduced to how much output is queued and how copying ends; the clock does not advance
  within one event.
- Bounce.Engine.Add: an envelope that is no bounce, for which the program ends.
- Bounce.Engine.Deliver: loading an envelope again always succeeds; otherwise the program ends.
- Ioev.System.Do: io_set_read and io_set_write in a mode that does not allow them are skipped,
  where the program would end; `Bounce.Engine.Dispatch` shows that this does not happen there.
- Iobuf.Input.Read: a read that fails or finds the end is left to the caller.
- Iobuf.Iobuf.Alloc: always succeeds.
- The TLS paths and the connecting phase of `ioev.c`.
- Ioev.System.Run: later steps do not name an io that is made during the run; a run can start
  with any ios.
- Base64.Pton: a null target, which only counts, is not modelled.
- Envelope.RoundTrip: socket addresses are written and read by a pair of inverse functions;
  strings have no newline and fit their fields; flags that are not saved are not modelled.
- libtls, ca, crypto, control, config, dispatcher, aliases, forward, enqueue and the
  remaining compatibility functions: wrappers, or easy.
