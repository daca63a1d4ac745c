# Models of pdsh and their proofs

This project models the parts of pdsh, a parallel remote shell, that carry its
state: its circular buffer and the lines rebuilt on it, its compressed host
lists, the scheduler that bounds the number of connections, its copy protocol,
its linked list with live iterators, and the reading of host files that include
each other. Every operation that changes state in place is a method on a class
or on a list of ranges, proved against a specification; what is promised is then
proved of the specifications, for all inputs and over whole runs.

    dafny verify dfyconfig.toml

checks everything.

## Parts

**Circular buffer** (`Ring`, `CbufModel`, `CbufShape`, `Cbuf`, `CbufCopy`,
`CbufLines`, `CbufRuns`; src/pdsh/cbuf.c). `CbufModel.Model` is a plain pair of
byte sequences (replay, unread) with a size and a policy. `CbufShape.Layout` is
the three indices as arithmetic. `Cbuf.Cbuf` is the ring itself, an array with
indices; its ghost field `view` is the pair, and `Valid` ties the two together.
A descriptor or a caller's memory is a parameter: the bytes that it will deliver
or take, and what it answers after them.

**Rebuilding lines** (`ReturnCode`, `Reassembly`; src/pdsh/dsh.c). One worker's
output from its first read to the final flush, on top of the buffer, and the
return code that is taken out of it.

**Host lists** (`Decimal`, `Widths`, `HostRanges`, `Expansion`, `Hostlist`,
`RangeOrder`, `Overlap`, `Coalesce`, `HostOrder`, `Joining`, `HostlistSort`,
`HostlistUniq`, `HostlistOrder`, `HostlistFind`, `HostlistFilter`, `HostlistParse`,
`HostlistPrint`, `HostlistText`; src/common/hostlist.c, src/pdsh/opt.c). `Expand`
is the plain sequence of names that a list of ranges stands for; `Cells` says of
each host besides whether it is a range of its own. A range with its width replaced
by the length at which its lowest number prints (`Canon`) names its class: the code
rewrites widths only within a class. `HostlistText` says what texts mean, and what
is written, without the functions that the code is proved against.
`RangeOrder.Sortable` and
`Joining.Separable` are the conditions under which sorting and unification do what
they are for.

**Scheduler** (`Fanout`; src/pdsh/dsh.c). A transition system over the steps of the
main thread, one worker per host and the thread that cancels, with the mutex and
the condition variable explicit. The condition wait returns only after a signal.

**Copy protocol** (`PcpModel`, `PcpClient`, `PcpServer`, `PcpCopy`;
src/pdsh/pcp_client.c, src/pdsh/pcp_server.c). The exchange between the two sides
is one sequence of bytes and acknowledgements; each side is proved to follow it,
and two sides that follow one sequence cannot block each other.

**Linked list** (`LinkedList`, `ListRuns`; src/common/list.c). Nodes on the heap;
the address of a `next` field is written as the node that it belongs to.

**Host files** (`Wcoll`; src/pdsh/wcoll.c). A recursion over files that include
each other, with a cache of paths.

`Sequences` and `Options` hold what several of these use.

## What the code does otherwise than one might expect

- cbuf_replay_line copies the most recent bytes when the caller's buffer is too
  small, not the oldest of the lines.
- got_wrap after cbuf_copier or cbuf_write_line can differ from what writing the
  same bytes would set (`CbufModel.Model.AppendEndWraps` says when, and
  `CbufRuns.RunsHoldTheEnd` what that means for whole runs).
- hostrange_cmp calls 0 and 2^32 equal (`HostRanges.CmpFarApart`).
- hostlist_sort stops in an assertion, or leaves hosts out of order, exactly for
  the lists that are not `RangeOrder.Sortable`, such as
  f[50-200],f[60-150],f[007-008] (`HostlistSort.Sort`,
  `HostlistSort.MixedWidthsBreakSort`).
- hostlist_uniq keeps a name twice exactly for the lists that are not
  `Joining.Separable`: some with mixed padding, and with prefixes that end in a
  digit (`HostlistUniq.Uniq`, `HostlistOrder.MixedWidthsKeepDuplicates`,
  `HostlistOrder.DigitPrefixHides`).
- hostlist_delete_nth admits the position behind the last host and then makes the
  count wrong (`Hostlist.Hostlist.DeleteNth`).
- hostlist_push_range returns the length of the whole list where its comment
  announces the number of hosts pushed.
- hostlist_find does not find a host in a range if its trailing number is above
  2^25 (`HostlistFind.FindsFirst` says when its answer is right all the same,
  `HostlistFind.FindMisses` is a list for which it is not).
- hostlist_next cuts a number to 14 characters, so a filter may see another name
  than the one that is kept (`HostRanges.HostRange.ShownWhole`).
- The return code of a command whose output does not end in a newline is read
  without its first digit (`ReturnCode.CodeRead`); and any line of output behind
  it sets the code to that of this line again (`Reassembly.FlushLines`).
- The low end of a range in brackets is not checked to its end: `5x-7` is read as
  05 to 07, since all before the dash counts for the width, and `5-` as 5
  (`HostlistParse.SingleRangeReads` says what is accepted, `HostlistParse.JunkIsRead`
  is about these two).
- A range from 0 to the largest number passes the check for too many hosts, since
  its count wraps to 0 (`HostlistParse.AllNumbersPass`), and with a suffix behind
  the brackets any range that reaches that number is an endless loop
  (`HostlistParse.SuffixLoopEnds`); where such a range would be pushed,
  `HostlistParse.Create` stops with `WrapsRound`.
- A spurious wakeup of the first condition wait lets dsh start one thread too many
  (`Fanout.SpuriousWakeupOverruns` says from which states,
  `Fanout.SpuriousWakeupHappens` reaches one).
- A host runs all the same if it is canceled before the first step of its thread,
  or between the look at its state and the store that says that it is being read;
  none that is canceled at another time and does not run already does
  (`Fanout.CancelOverwritten`, `Fanout.CancelOverwrittenHappens`).
- A host whose connection failed can end as canceled, since the canceling thread
  looks at its state before that and sets it behind it, and is then not counted as
  failed (`Fanout.ResultKept`, `Fanout.FailureOverwritten`).
- A top-level file named like the flag that ends a directory is taken for it
  (`PcpClient.GivenEvents`, `PcpClient.FlagIsNoFile`).
- After another removal took the element to come, list_remove through an iterator
  does nothing (`ListRuns.StillLeadsToIt`).
- `#includefoo` is read as `#include foo` (`Wcoll.BlankIsOptional`).

## Model

| member | source | states |
|---|---|---|
| Ring.WrapIsModulo | src/pdsh/cbuf.c:1440 | the wrap of an index by one subtraction, as the model writes it, is the remainder that the code takes |
| CbufModel.Model.GrownSizeBounds | src/pdsh/cbuf.c:1670-1691 | growing reaches maxsize or gains at least the `n` bytes asked for, in spite of the rounding to chunks |
| CbufModel.Model.GrownSizeIs | src/pdsh/cbuf.c:1670-1691 | the allocation grows to the first multiple of 1000 behind what is asked for, or to what maxsize needs if that comes first |
| CbufModel.Model.AcceptMeans | src/pdsh/cbuf.c:1590-1600 | how many bytes a write takes: under the first policy as many as there is room for, under the second as many as the buffer can hold at all, under the third all; a line is let in exactly if it is taken whole |
| CbufModel.Model.AppendHeld | src/pdsh/cbuf.c:1590-1640 | what a write does to the pair (replay, unread): together they are the last size bytes of all that was held and written, unread bytes being kept before replay bytes; got_wrap is set exactly if something was lost |
| CbufModel.Model.AppendConcat | src/pdsh/cbuf.c:1606-1640 | a write in two pieces leaves the same state as one write |
| CbufModel.Model.WritePiece | src/pdsh/cbuf.c:850-890 | once room was made for an admitted line, each of its pieces is taken whole and grows nothing |
| CbufModel.Model.AppendEndWraps | src/pdsh/cbuf.c:1387-1397 | skipping the bytes that would be overwritten at once leaves the same state if and only if the buffer had wrapped, held something, or can hold all of the bytes: otherwise only got_wrap differs |
| CbufModel.Model.DropThenRewind | src/pdsh/cbuf.c:1428-1451 | rewinding by what was dropped restores the state |
| CbufShape.Layout.Borders | src/pdsh/cbuf.c:1806-1816 | the relation between the three indices, size and used that the validity check asserts |
| CbufShape.Layout.ForwardIsDrop | src/pdsh/cbuf.c:1440-1446 | moving i_out forward moves that many bytes from the front of unread to the end of replay |
| CbufShape.Layout.BackwardIsRewind | src/pdsh/cbuf.c:596-604 | moving i_out back moves that many bytes from the end of replay to the front of unread |
| CbufShape.Layout.AfterWriteIsAppend | src/pdsh/cbuf.c:1626-1642 | the index updates after the copy loop, with their three cases, make the ring hold the end of everything held and written, split as the model says |
| CbufShape.Layout.GrownIsSame | src/pdsh/cbuf.c:1693-1723 | with the wrapped tail moved to the new end and i_rep and i_out moved with it, both sequences are the same byte for byte |
| CbufShape.WriteChunk | src/pdsh/cbuf.c:1606-1619 | one contiguous copy to the write index extends what ends at that index |
| Cbuf.Cbuf.constructor | src/pdsh/cbuf.c:219-278 | an empty buffer of minsize, never wrapped, with the policy that wraps many times |
| Cbuf.Cbuf.Flush | src/pdsh/cbuf.c:306-321 | the abstract state becomes empty; size and policy stay |
| Cbuf.Cbuf.SetOverwrite | src/pdsh/cbuf.c:447-474 | the policy is the new one, and nothing else changes |
| Cbuf.Cbuf.Dropper | src/pdsh/cbuf.c:1428-1451 | refines the abstract drop and keeps the validity invariant |
| Cbuf.Cbuf.Drop | src/pdsh/cbuf.c:477-504 | -1 drops everything, otherwise at most what is unread; the number is returned; a length below -1 is refused and changes nothing |
| Cbuf.Cbuf.CopyOut | src/pdsh/cbuf.c:1482-1504 | the two-part copy loop delivers the cells from the start index on, wrapped, as many as asked for and taken; a consumer that takes nothing has its own answer returned |
| Cbuf.Cbuf.Reader | src/pdsh/cbuf.c:1454-1507 | the front of unread, and its length or the consumer's error |
| Cbuf.Cbuf.Replayer | src/pdsh/cbuf.c:1510-1564 | the start of the last bytes of replay that were asked for |
| Cbuf.Cbuf.Peek | src/pdsh/cbuf.c:507-527 | the front of unread; the state does not change |
| Cbuf.Cbuf.Read | src/pdsh/cbuf.c:530-553 | the front of unread, which then counts as read |
| Cbuf.Cbuf.Replay | src/pdsh/cbuf.c:556-576 | the end of replay, without a change of state |
| Cbuf.Cbuf.Rewind | src/pdsh/cbuf.c:579-610 | the split moves back by at most what can be replayed, -1 meaning all |
| Cbuf.Cbuf.Grow | src/pdsh/cbuf.c:1654-1726 | both sequences and their split stay; the size becomes maxsize or at least `n` more, by the chunk rule; the gain is returned |
| Cbuf.Cbuf.MoveTail | src/pdsh/cbuf.c:1714-1723 | the memmove within one array: the cells from i_rep on stand at the new end, the others are as they were |
| Cbuf.Cbuf.FillFrom | src/pdsh/cbuf.c:1604-1621 | the copy loop leaves in the ring, ending at the index returned, what was held followed by the bytes that the source delivered, even when these lap the ring |
| Cbuf.Cbuf.Commit | src/pdsh/cbuf.c:1622-1645 | the metadata update, and got_wrap set if more than the free and replay space was used |
| Cbuf.Cbuf.Writer | src/pdsh/cbuf.c:1567-1651 | refines grow, accept by policy, append; returns the bytes taken, -1 if the policy takes none, or the source's answer, and the unread bytes destroyed |
| Cbuf.Cbuf.Write | src/pdsh/cbuf.c:613-636 | the same from memory |
| CbufCopy.WriteFromFd | src/pdsh/cbuf.c:976-1009 | -1 asks for the free space or, if there is none, for 1000 bytes or the size of a smaller buffer; otherwise as a write from that source |
| CbufCopy.WriteLine | src/pdsh/cbuf.c:815-895 | the text with its newline goes in whole or not at all, by policy; a line longer than the buffer leaves its end |
| CbufCopy.CopyCells | src/pdsh/cbuf.c:1393-1413 | the loop over two rings that wrap at different places copies the cells in order |
| CbufCopy.Copier | src/pdsh/cbuf.c:1342-1425 | dst becomes what the abstract copy says; the count and the number dropped are those of a write of the same length |
| CbufCopy.Copy | src/pdsh/cbuf.c:1012-1058 | the same with its argument checks: a copy onto itself or a length below -1 is refused |
| CbufCopy.Move | src/pdsh/cbuf.c:1061-1110 | and src counts exactly the bytes copied as read |
| CbufCopy.CopyIsReadThenWrite | src/pdsh/cbuf.c:1342-1425 | for all pairs of states: copying is reading those bytes and writing them, with the same replay, unread and number dropped; got_wrap agrees too if and only if dst had wrapped, held something or can hold all that is taken |
| CbufLines.UnreadLineUnique | src/pdsh/cbuf.c:1208-1263 | the requirement on the unread line search, exactly the requested first lines or none, or the most lines that fit, determines its answer |
| CbufLines.FindUnreadLine | src/pdsh/cbuf.c:1208-1263 | the forward search meets that requirement |
| CbufLines.ReplayLineUnique | src/pdsh/cbuf.c:1113-1205 | the requirement on the replay line search, with the rules for a missing final newline and for a buffer that never wrapped, determines its answer |
| CbufLines.FindReplayLine | src/pdsh/cbuf.c:1113-1205 | the backward search meets that requirement |
| CbufLines.DropLine | src/pdsh/cbuf.c:639-663 | the requested lines are dropped, all or nothing |
| CbufLines.PeekLine | src/pdsh/cbuf.c:666-700 | the requested lines, cut to the caller's buffer, without a change of state |
| CbufLines.ReadLine | src/pdsh/cbuf.c:703-738 | the requested lines, which count as read even where they were cut |
| CbufLines.ReplayLines | src/pdsh/cbuf.c:741-784 | the requested last lines with the newline that the last one lacks, cut to the caller's buffer; the newline is counted only if the buffer has a length |
| CbufLines.ShownBackIs | src/pdsh/cbuf.c:741-784 | what is shown is the end of the lines with that newline, as much of it as the buffer has room for |
| CbufLines.RewindLine | src/pdsh/cbuf.c:787-812 | the split moves back over the requested last lines |
| CbufLines.RewindLineThenReadLine | src/pdsh/cbuf.c:703-812 | if replay ends in a newline, rewinding `k` lines and reading `k` lines restores the state, and the bytes read are those rewound |
| CbufRuns.RunsHoldTheEnd | src/pdsh/cbuf.c:1769-1819 | over every run of writes, whole lines, copies from another buffer, reads, rewinds and flushes: the buffer holds the last bytes of all taken in since it was empty, unread last: all of them, or at least as many as its first size; whether it counts as wrapped says whether it has lost some if and only if it counts as wrapped, or since the last flush no line and no copy of more than it can hold has come into it while it was empty and had never wrapped |
| CbufRuns.LongLineUncounted | src/pdsh/cbuf.c:1387-1397 | such a line: three bytes into a new buffer for two; one is lost, and the buffer does not count as wrapped |
| CbufRuns.RunsConserve | src/pdsh/cbuf.c:1567-1651 | over every run: the bytes unread at the start, taken in, and made unread again by rewinds are those delivered, unread, thrown away by flushes and reported as dropped |
| CbufRuns.RunsReadTheStream | src/pdsh/cbuf.c:477-636 | over every run: each read delivers the bytes held at first and taken in since, in their order, from a position that reads move forward and rewinds back, and that passes over what writes drop and flushes throw away |
| CbufRuns.RunsAreFifo | src/pdsh/cbuf.c:613-636 | over every run without rewinds and flushes in which nothing is dropped: what is delivered is what was taken in, in order, up to the unread rest |
| CbufRuns.DropsOnlyWhenFull | src/pdsh/cbuf.c:1567-1600 | whatever brings bytes in: nothing is dropped under the policy that drops nothing, nor as long as growing could make room; a drop means the largest size |
| CbufRuns.StepAccounts | src/pdsh/cbuf.c:1567-1651 | for every write, line and copy: unread before and taken in equals unread after and dropped |
| CbufCopy.LineIsStep | src/pdsh/cbuf.c:838-895 | what cbuf_write_line does is such a step of a run |
| CbufCopy.CopyIsStep | src/pdsh/cbuf.c:1342-1425 | so is what cbuf_copy and cbuf_move do to the buffer that takes the bytes |
| Reassembly.FeedIsCut | src/pdsh/dsh.c:522-567 | cutting a text at its newlines gives whole lines and a rest without newline that together are the text |
| Reassembly.FeedConcat | src/pdsh/dsh.c:522-567 | and does not depend on how the text arrives in pieces |
| ReturnCode.ExtractRc | src/pdsh/dsh.c:507-520 | in place: the text is cut off at the first marker, with its newline put back unless nothing stood before the marker; the code returned is the number behind the marker, read one character too late if a newline was put back |
| ReturnCode.CutMeans | src/pdsh/dsh.c:507-520 | for every text without NUL in which the marker first stands behind some bytes: these are printed, with a newline if the text ends in one and there are any |
| ReturnCode.NulEnds | src/pdsh/dsh.c:539-562 | nothing behind a NUL is printed or looked at |
| ReturnCode.AtoiReads | src/pdsh/dsh.c:507-520 | spaces, perhaps a sign, and a printed number are read as that number, up to what is no digit |
| ReturnCode.CodeRead | src/pdsh/dsh.c:507-520 | for every line in which the echoed return code comes: the code read is the one echoed if and only if nothing stands before the marker or the code is 0, and what stands before it is what is printed |
| ReturnCode.PrintedOne | src/pdsh/dsh.c:546-560 | a line of which nothing is left is not printed |
| ReturnCode.PiecesMean | src/pdsh/dsh.c:586-605 | the unfinished end is printed in pieces of 8191 bytes, each up to its first NUL |
| Reassembly.PrintLine | src/pdsh/dsh.c:539-562 | of a line that was taken off is printed what is left before its first NUL and, on stdout, before the marker; the return code of the thread is then that of this line |
| Reassembly.FlushLines | src/pdsh/dsh.c:522-567 | takes exactly the whole lines that are unread off the buffer, prints of each what is left if that is not empty, and leaves the rest; the return code is that of the last line |
| Reassembly.DshBufferGrows | src/pdsh/dsh.c:883-884 | the size of a buffer made for 64 to 131072 bytes goes through such values that a full one can always grow by the chunk it asks for |
| Reassembly.DoOutput | src/pdsh/dsh.c:569-584 | one read: the lines taken off are those that it completes, or bytes of a line of the greatest size were dropped; printed is what is left of each |
| Reassembly.FlushOutput | src/pdsh/dsh.c:586-605 | takes the rest off, and prints each piece of 8191 bytes up to its first NUL |
| Reassembly.Session | src/pdsh/dsh.c:522-605 | for every input and every way in which it arrives: nothing is lost if and only if no line and no rest is longer than 131072 bytes, and if and only if what is taken off is the input cut at its newlines; the losses are counted exactly; what is printed is the image of what is taken off, and the input itself if and only if moreover there is no NUL in it and, on stdout, no marker |
| Decimal.ZeroPadded | src/common/hostlist.c:398-404 | the number of zeros that printing at a width adds |
| Decimal.ValuePadded | src/common/hostlist.c:1041 | reading a padded number back gives the number |
| Decimal.PaddedValue | src/common/hostlist.c:550-551 | printing a number at the length it was read at gives the text |
| Decimal.PaddedInjective | src/common/hostlist.c:419-449 | two padded numbers are the same text exactly if they are the same number printed at the same length |
| Widths.WidthEquiv | src/common/hostlist.c:419-449 | the answer and the two widths that are written back |
| Widths.UnifyKeepsPrinting | src/common/hostlist.c:406-449 | the widths written back print every number of either range as before |
| Widths.UnifyComplete | src/common/hostlist.c:406-449 | two widths are found equivalent if and only if one width exists that prints both numbers as they are |
| Widths.UnifyByLength | src/common/hostlist.c:419-449 | which is so if and only if the numbers print at the same length or the longer one is not padded |
| HostRanges.HostRange.CanonHosts | src/common/hostlist.c:760 | a width rewritten within its class changes no host name of the range |
| HostRanges.WidthCombine | src/common/hostlist.c:754-760 | both widths become one, or none is touched; what either range prints stays |
| HostRanges.Cmp | src/common/hostlist.c:696-708 | the comparator with the widths that it rewrites: only within their classes |
| HostRanges.LeTransitive | src/common/hostlist.c:690-729 | the intended order, by prefix, single hosts first, printed length and value, is transitive |
| HostRanges.LeTotal | src/common/hostlist.c:690-729 | and total |
| HostRanges.LeByCanon | src/common/hostlist.c:696-708 | and not changed by widths being rewritten under way |
| HostRanges.StrCmpIsLex | src/common/hostlist.c:723-729 | for all strings: the first comes before the second if and only if at the first place where they differ it has the smaller character, or none |
| HostRanges.CmpIsOrder | src/common/hostlist.c:696-708 | the comparator answers by that order if and only if the difference that it returns keeps its sign as an int, as all differences below 2^31 do |
| HostRanges.CmpFarApart | src/common/hostlist.c:703-707 | an input for which it does not: 0 and 2^32 compare equal |
| Hostlist.Hostlist.PushRange | src/common/hostlist.c:1130-1162 | the hosts of the range are appended: the last range is extended if the new one has its prefix, begins right behind it and can be given its width, and otherwise it is a new range; the length of the whole list is returned |
| Hostlist.Hostlist.PushList | src/common/hostlist.c:1649-1664 | the hosts of the other list are appended in order |
| Hostlist.Hostlist.ShiftIterators | src/common/hostlist.c:1687-1704 | every live iterator is moved as a deletion requires |
| Hostlist.Hostlist.InsertRange | src/common/hostlist.c:1182-1217 | the range stands at its position, iterators behind it are moved |
| Hostlist.Hostlist.DeleteRange | src/common/hostlist.c:1222-1242 | the range is gone, iterators are moved |
| Hostlist.Hostlist.Nth | src/common/hostlist.c:1847-1867 | the host at that position of the expanded sequence, or none |
| Hostlist.Hostlist.DeleteNth | src/common/hostlist.c:1870-1905 | the host at that position goes and nothing else, and the others stay in the kind of range they were in; the position one behind the end, which the assertion admits, makes the count wrong |
| Hostlist.Hostlist.Pop | src/common/hostlist.c:1667-1683 | the last host of the expanded sequence |
| Hostlist.Hostlist.Shift | src/common/hostlist.c:1706-1728 | the first host of the expanded sequence |
| Hostlist.WithoutHosts | src/common/hostlist.c:668-687 | deleting a host of a range, at an end or in the middle, leaves the other hosts in order |
| Overlap.SplitHosts | src/common/hostlist.c:2012-2041 | resolving an overlap of two ranges into pieces and doubled single hosts keeps every host with its multiplicity |
| Overlap.SplitSorted | src/common/hostlist.c:2012-2041 | and puts the pieces in order |
| Coalesce.AfterSmaller | src/common/hostlist.c:2002-2050 | each resolution makes the total length of the ranges smaller, or keeps it and moves length to the right |
| Coalesce.AfterInOrder | src/common/hostlist.c:2002-2050 | a resolution leaves the list sorted and sortable if and only if it was |
| HostlistSort.QSort | src/common/hostlist.c:1954-1960 | what is used of the C library's sort: the list is permuted into the order of the comparator, up to rewritten widths |
| HostlistSort.PermutationHosts | src/common/hostlist.c:1954-1960 | permuting ranges and rewriting widths within their classes permutes the hosts |
| HostlistSort.Intersect | src/common/hostlist.c:868-891 | whether the assertion holds, whether two ranges overlap in more than their borders, and in what |
| HostlistSort.SplitAt | src/common/hostlist.c:2012-2041 | the insertions around an overlap rebuild the list as resolved |
| HostlistSort.CoalesceOverlaps | src/common/hostlist.c:2002-2046 | for whatever widths: the scan that starts again after each overlap ends, with a failed assertion or a sorted list in which no two neighbours overlap; no host is lost, gained or miscounted; the list is sortable at the end if and only if it was |
| HostlistSort.Collapse | src/common/hostlist.c:1980-1997 | joining neighbours leaves the expanded sequence as it is |
| HostOrder.HostsInOrder | src/common/hostlist.c:2002-2050 | the hosts of a sorted list without overlaps are in order if it is sortable |
| HostOrder.SortedHostsSortable | src/common/hostlist.c:2002-2050 | and only then |
| HostOrder.LeIsInOrder | src/common/hostlist.c:690-729 | the order of ranges is, for the hosts with which they begin: the smaller prefix first, then the shorter number, a whole name having none, then among numbers of one length the smaller one, both by the first character that differs |
| HostOrder.PartsMakeNames | src/common/hostlist.c:1003-1012 | the prefix and the number of each host make up its name |
| HostlistSort.Sort | src/common/hostlist.c:1954-1974 | for whatever widths: the hosts are a permutation of the old ones and nhosts is exact; no assertion fails and of any two hosts the one with the smaller prefix, and of hosts of one prefix the one with the shorter or, at one length, smaller number comes first, if and only if of any two ranges of one prefix the later one can be given the width of the earlier one or comes after its last host; the iterators are at the start |
| HostlistSort.MixedWidthsBreakSort | src/common/hostlist.c:2002-2050 | f[50-200],f[60-150],f[007-008] is not such a list |
| HostlistOrder.OneWidthIsSortable | src/common/hostlist.c:1954-1974 | every list with one width per prefix and numbers that fit an int apart is |
| HostlistUniq.Join | src/common/hostlist.c:834-860 | two ranges join exactly if they have one prefix and one width and touch or overlap; the result holds the hosts of both and the number of doubles is exact |
| HostlistUniq.AttemptRangeJoin | src/common/hostlist.c:2056-2069 | one join keeps the set of names and the count |
| HostlistUniq.Uniq | src/common/hostlist.c:2071-2092 | for whatever widths: the set of names stays, nhosts is exact, the ranges are sorted and the iterators at the start; all names are different then if and only if no name was in ranges of two prefixes and wherever two ranges of one prefix shared a name, all ranges between them could be given the width of the first; the hosts are in that order if and only if hostlist_sort would put them in order |
| Joining.BlocksDistinct | src/common/hostlist.c:2056-2092 | joining neighbours of a sorted list until none join makes all names different if and only if that condition holds |
| Joining.JoinInOrder | src/common/hostlist.c:834-860 | joining two neighbours leaves the list sortable if and only if it was |
| HostlistOrder.OneWidthIsSeparable | src/common/hostlist.c:2071-2092 | the condition holds for every list with one width per prefix of which no prefix ends in a digit |
| HostlistOrder.GroupsApart | src/common/hostlist.c:2071-2092 | prefixes that end in no digit have no names in common |
| HostlistOrder.SortedAndDistinct | src/common/hostlist.c:2071-2092 | of hosts that are in order and have different names each two are so in one order only |
| HostlistOrder.MixedWidthsKeepDuplicates | src/common/hostlist.c:2071-2092 | f[9-10],f[01-10] does not meet the condition |
| HostlistOrder.DigitPrefixHides | src/common/hostlist.c:834-860 | nor does a list in which one prefix is another one with a zero behind it and both hold that host |
| HostlistFind.HostPrefixEnd | src/common/hostlist.c:457-464 | where the digits at the end of a name begin |
| HostlistFind.HostnameCreate | src/common/hostlist.c:519-523 | a name is split before its trailing number, if it has one of at most 2^25 |
| HostlistFind.HnWithin | src/common/hostlist.c:896-985 | by a recursion over the digits with which prefixes may end: the offset of the host in the range, or -1 exactly if it is not there; widths are rewritten only within their class |
| HostlistFind.Find | src/common/hostlist.c:1916-1941 | the first position at which the host is seen, or -1: it is seen if it is a range of its own or its trailing number is at most 2^25; the list stands for the same hosts |
| HostlistFind.FindsFirst | src/common/hostlist.c:896-985 | for every list: that answer is the first position of the host, or -1 because there is none, if and only if the trailing number is at most 2^25, or the host is not there, or first stands there as a range of its own |
| HostlistFind.LargeNumberHides | src/common/hostlist.c:896-985 | and there are others: every range of one host whose number is larger is searched in vain for that host |
| HostlistFind.FindMisses | src/common/hostlist.c:1916-1941 | f[33554433], asked for f33554433, is one |
| HostlistFind.PushHost | src/common/hostlist.c:1625-1647 | the name is appended, whatever it looks like; as a number behind a prefix exactly if it ends in a number of at most 2^25 |
| HostlistFind.DeleteHostName | src/common/hostlist.c:1826-1832 | the first occurrence that is seen goes; 1 is returned exactly if one was there |
| HostlistFind.DeleteAll | src/common/hostlist.c:1806-1822 | from the list of names on: the number removed is returned, and what is left is the sequence without the first occurrences that are seen, as many of each name as it is given |
| HostlistFind.MinusSeenCounts | src/common/hostlist.c:1806-1822 | deletion subtracts from the number of occurrences of each name how often it is given, as far as its hosts are seen |
| HostlistFind.MinusShort | src/common/hostlist.c:1806-1822 | with numbers of at most 2^25 only the names count |
| HostlistFind.MinusCounts | src/common/hostlist.c:1806-1822 | and deletion is truncated subtraction of multisets |
| HostlistFind.MinusSeenKeepsOrder | src/common/hostlist.c:1806-1822 | what stays keeps its order |
| HostlistFind.MinusSeenTwice | src/pdsh/opt.c:1433-1448 | two deletions are the deletion of both lists |
| HostlistFilter.StepAhead | src/common/hostlist.c:2276-2290 | an advance goes on to the next position of the expanded sequence, across ranges |
| HostlistFilter.Next | src/common/hostlist.c:2314-2344 | the host at that position with its number cut to 14 characters, or none at the end |
| HostRanges.HostRange.ShownWhole | src/common/hostlist.c:2329-2340 | which is the name of the host if and only if its number prints in 14 characters |
| HostlistFilter.Remove | src/common/hostlist.c:2370-2391 | the host returned last goes and nothing else, and the iterator comes back to its place or, when a range was emptied, to an earlier one |
| HostlistFilter.FilterRegex | src/pdsh/opt.c:1298-1311 | the loop ends, although it may go back and pass over hosts again, and leaves exactly the hosts that are to be kept by what the iterator gives of their names, in order |
| HostlistFilter.KeptCounts | src/pdsh/opt.c:1298-1311 | each as often as before |
| HostlistParse.NextTok | src/common/hostlist.c:366-393 | the next token, brackets and nesting included, and the rest behind its separators |
| HostlistParse.SingleRangeReads | src/common/hostlist.c:1396-1434 | for every text: accepted are those that mean a range - up to the first dash a number, with spaces and a sign before it, which ends the text or is followed by anything if there is another number behind the dash, and that number to the end, not below the first - of at most 16384 hosts, or of all numbers there are; with these numbers, and all that stands before the dash counts for the width; the error is that of the count exactly if the text means a range |
| HostlistParse.JunkIsRead | src/common/hostlist.c:1396-1434 | `5x-7` is read as 5 to 7 at width 2, and `5-` as 5 |
| HostlistParse.AllNumbersPass | src/common/hostlist.c:1426-1431 | a range from 0 to the largest unsigned long, or to any number written larger, is accepted |
| HostlistParse.SuffixLoopEnds | src/common/hostlist.c:1479-1489 | the loop that appends a suffix ends if and only if the range does not reach the largest unsigned long |
| HostlistParse.ParseRangeList | src/common/hostlist.c:1443-1458 | all ranges between the commas, or the first failure |
| HostlistParse.PushRangeList | src/common/hostlist.c:1460-1469 | the names of the ranges are appended |
| HostlistParse.PushRangeListWithSuffix | src/common/hostlist.c:1471-1491 | the names with a suffix are appended one by one |
| HostlistParse.Create | src/common/hostlist.c:1497-1551 | the list has the names that the text stands for, or the failure is that of its first faulty token; the model stops at a range that reaches the largest unsigned long |
| HostlistText.BracketsMean | src/common/hostlist.c:1443-1491 | for every prefix, list of ranges between commas and suffix: the names read are, range by range, those of all its numbers in order, printed at its width between the prefix and the suffix, and no others |
| HostlistText.SuffixReads | src/common/hostlist.c:1471-1491 | for every prefix, text in brackets and suffix: with the suffix there are as many names as without, each with the suffix behind it, or the same failure |
| HostlistText.PartsFail | src/common/hostlist.c:1443-1458 | the first faulty range, or the one after the 10240th, decides how a list in brackets fails |
| HostlistText.SeparatorDivides | src/common/hostlist.c:366-393 | behind as many closed brackets as opened ones a comma, a blank or a tab divides a text: it stands for the names of the one part and then those of the other, and fails as the first part that does |
| HostlistText.NameReads | src/common/hostlist.c:1537-1538 | a name without separators and brackets stands for itself, cut to 1023 characters |
| HostlistText.OpenFails | src/common/hostlist.c:1532-1533 | a bracket that is not closed is an error |
| HostlistText.CloseFails | src/common/hostlist.c:1535-1536 | so is one that is not opened |
| HostlistParse.Push | src/common/hostlist.c:1608-1623 | these names are appended, none if the text is faulty; their number is returned |
| HostlistParse.Delete | src/common/hostlist.c:1806-1822 | these names are deleted, as far as they are seen |
| HostlistParse.ApplyExcluded | src/pdsh/opt.c:1433-1448 | all exclusions together remove what they name, as far as it is seen, whatever their order |
| HostlistParse.WcollExpand | src/pdsh/opt.c:804-819 | the list becomes the concatenation of what each host is read as, in order |
| HostlistParse.ReexpandPlain | src/pdsh/opt.c:804-819 | which leaves names without brackets and separators alone |
| HostlistPrint.GetBracketedList | src/common/hostlist.c:2138-2182 | the text of the longest run of ranges from there in which neighbours have one prefix and neither is a whole name, and where it ends: a single host is its name, more hosts or more ranges are their numbers between commas in brackets behind the prefix |
| HostlistPrint.RangedString | src/common/hostlist.c:2184-2207 | for every list there is a division into such runs, which ends where neighbours differ in prefix or one is a whole name and nowhere else, and the text is theirs with commas between them |
| HostlistText.TokensAreGroups | src/common/hostlist.c:2184-2207 | the tokens of that text are the texts of the runs: as many as there are such places, and one |
| HostlistPrint.NumStrReads | src/common/hostlist.c:1031-1051 | the printed numbers of a range are parsed as the same numbers, at the printed width |
| HostlistPrint.GroupReads | src/common/hostlist.c:2138-2182 | the text of a group is parsed as its hosts |
| HostlistPrint.PrintThenRead | src/common/hostlist.c:2184-2207 | what is printed is parsed as the same hosts in the same order with the same padding, within the limits of the parser |
| HostlistPrint.SameTextSameHosts | src/common/hostlist.c:2184-2207 | so lists that print alike stand for the same hosts |
| HostlistPrint.Reread | src/common/hostlist.c:1497-1551 | printing a list and creating one from the text gives a list of the same hosts |
| Fanout.InitInv | src/pdsh/dsh.c:1118-1150 | the invariant holds at the start |
| Fanout.MainBounded | src/pdsh/dsh.c:1150-1195 | each step of the main thread keeps: threadcount counts the workers that have not yet decremented it, it lies within 0 and fanout, a wait means a full house or a signal that is due, and behind the test there is room for one more or no host left to start |
| Fanout.WorkerBounded | src/pdsh/dsh.c:494-498 | so does each step of a worker |
| Fanout.MainInTurn | src/pdsh/dsh.c:1150-1189 | the main thread passes over a host only if that is canceled |
| Fanout.MainInOrder | src/pdsh/dsh.c:1150-1189 | it starts the hosts in order, each at most once |
| Fanout.CancelExclusive | src/pdsh/dsh.c:902-922 | canceling keeps the mutex exclusive |
| Fanout.CancelsPending | src/pdsh/dsh.c:912-917 | canceling sets exactly the states of hosts found to wait for their turn or for their connection |
| Fanout.StepInv | src/pdsh/dsh.c:1000-1195 | every step of every thread keeps the invariant |
| Fanout.FanoutKept | src/pdsh/dsh.c:34-40 | at most fanout workers are live at any time, and threadcount is their number whenever nobody holds the mutex |
| Fanout.SomethingToDo | src/pdsh/dsh.c:1150-1195 | no deadlock and no lost wakeup: until dsh returns a thread can take a step, other than the one that cancels unless that holds the mutex |
| Fanout.AllServed | src/pdsh/dsh.c:1191-1195 | when dsh returns, the thread of each host has finished, or the host was canceled before its turn and has had none |
| Fanout.ResultKept | src/pdsh/dsh.c:674-675 | for every run: of a host whose thread has finished the state is failed if and only if its connection or its command failed, and done if not, unless the canceling thread has set it behind that |
| Fanout.FailureOverwritten | src/pdsh/dsh.c:903-919 | which happens: a run from the start in which a host whose connection failed ends as canceled |
| Fanout.StatesShow | src/pdsh/dsh.c:461-500 | for every run: the state of each host is the one that belongs to where its thread is, or canceled |
| Fanout.Safe | src/pdsh/dsh.c:1000-1195 | these hold at every state of every run |
| Fanout.RunEnds | src/pdsh/dsh.c:1150-1195 | the length of every run is bounded by the work at its start and the signals that arrive; so dsh returns if the workers finish |
| Fanout.SpuriousWakeupOverruns | src/pdsh/dsh.c:1156-1157 | from a state in which the main thread waits, a wakeup without a signal lets some run exceed fanout if and only if nobody holds the mutex and some host whose turn is still to come is not canceled |
| Fanout.SpuriousWakeupHappens | src/pdsh/dsh.c:1143-1157 | a run from the start to such a state: one connection at a time, two hosts |
| Fanout.CancelOverwritten | src/pdsh/dsh.c:349-365 | a canceled host is run in some continuation if and only if its thread has been created and not yet taken its first step, or is connected and has looked at its state and not yet set it, or runs already |
| Fanout.CancelOverwrittenHappens | src/pdsh/dsh.c:349-365 | runs from the start to each of the first two of these states |
| PcpModel.SiblingsApart | src/pdsh/pcp_server.c:329-351 | no path is below two siblings of different names |
| PcpModel.PlaceOutside | src/pdsh/pcp_server.c:353-425 | placing trees changes nothing but their paths |
| PcpModel.PlacedStands | src/pdsh/pcp_server.c:353-425 | after placing trees with different sibling names all of them stand there: names, contents, and modes unless older ones are kept |
| PcpModel.FitsStep | src/pdsh/pcp_server.c:353-385 | what fits at the start still fits when its turn comes |
| PcpModel.StaysReachable | src/pdsh/pcp_server.c:353-390 | each file or directory is made in a directory that is there, since a directory is placed before what is in it |
| PcpClient.RexpandDir | src/pdsh/pcp_client.c:94-139 | the tree below a directory is flattened in order, each directory closed by the flag |
| PcpClient.ExpandDirs | src/pdsh/pcp_client.c:141-170 | so are all that the user named, whatever their names |
| PcpClient.Client.Write | src/pdsh/pcp_client.c:180-196 | all bytes go out in order, however few each write takes |
| PcpClient.Client.SendFileData | src/pdsh/pcp_client.c:205-232 | the whole file goes out, however it is read |
| PcpClient.Client.SendFile | src/pdsh/pcp_client.c:288-363 | the exchange for one object: times, control record, data and the acknowledgements |
| PcpClient.Client.SendEntry | src/pdsh/pcp_client.c:365-390 | or the record that ends a directory; the name that goes out is what stands behind the last slash, with a dot and the host behind it for what the user named in a copy to this side |
| PcpClient.OutputNames | src/pdsh/pcp_client.c:376-386 | for every path and every host name without a slash: that is the name |
| PcpClient.HostsApart | src/pdsh/pcp_client.c:376-386 | so two hosts send one path under one name only if they are the same host |
| PcpClient.Client.Run | src/pdsh/pcp_client.c:392-404 | the exchange for a whole list, after the first acknowledgement |
| PcpClient.FlatEvents | src/pdsh/pcp_client.c:94-139 | the exchange for a flattened directory is that of the nested trees |
| PcpClient.GivenEvents | src/pdsh/pcp_client.c:364-390 | the exchange for the whole list is that of the trees that the user named if and only if none of the paths that he gave is the flag that ends a directory |
| PcpClient.FlagIsNoFile | src/pdsh/pcp_client.c:369-374 | a file that has the flag as its name is not sent, but read as the end of a directory |
| PcpServer.GetNum | src/pdsh/pcp_server.c:281 | the value of a run of digits |
| PcpServer.ParseControl | src/pdsh/pcp_server.c:311-327 | what a control record says |
| PcpServer.ControlComes | src/pdsh/pcp_server.c:277-327 | a printed control record is one line that is understood as it was meant |
| PcpServer.TimesComes | src/pdsh/pcp_server.c:291-309 | so is a record of times |
| PcpServer.Server.ReadRecord | src/pdsh/pcp_server.c:256-270 | one line is read a byte at a time, or the end, a bare newline or a lost connection |
| PcpServer.LineComes | src/pdsh/pcp_server.c:256-270 | a line that comes is what is read |
| PcpServer.Server.AllocBuf | src/pdsh/pcp_server.c:163-189 | a buffer of whole blocks |
| PcpServer.Server.ReceiveData | src/pdsh/pcp_server.c:399-429 | however reads are cut short: the file ends up with exactly the bytes sent, whatever longer content was there, and the buffer never overflows |
| PcpServer.Server.TakeFile | src/pdsh/pcp_server.c:388-455 | a file is opened, filled, cut and acknowledged twice; its mode is kept if it was there and modes are not preserved; without a directory for it, or in the place of one, opening fails and the error is sent |
| PcpServer.Server.TakeDir | src/pdsh/pcp_server.c:354-379 | a directory is made unless it is there, and its records are taken by a nested call; without a directory for it, or in the place of a file, the error is sent |
| PcpServer.Server.Turn | src/pdsh/pcp_server.c:253-455 | one record is taken off the trees that are still to come |
| PcpServer.Server.Sink | src/pdsh/pcp_server.c:213-456 | from any point at which the client is about to send some trees, and the target is a directory or in one: the server reads exactly their bytes, answers each record once, and places the trees |
| PcpCopy.NeverStuck | src/pdsh/pcp_client.c:288-404 | two processes that follow one script of bytes and acknowledgements, one sending what the other takes through pipes of any capacity, are never both blocked before its end |
| PcpCopy.RightByte | src/pdsh/pcp_server.c:213-456 | and the byte that is read is the one of the script |
| PcpCopy.Copy | src/pdsh/pcp_client.c:392-404 | if no path that the user gave is the flag, the target is a directory or in one and nothing of another kind is in the way: client and server follow the same script, and the trees stand in the target with nothing else changed; that is, whatever is found at or below a path that the user gave stands at the same place below the last part of that path, with a dot and the host behind it in a copy to this side, with its data, and with its mode or that of what was there |
| LinkedList.InsertedPoints | src/common/list.c:656-688 | what an iterator must point to after an insertion, from what it pointed to |
| LinkedList.RemovedPoints | src/common/list.c:691-724 | and after a removal |
| LinkedList.List.NodeCreate | src/common/list.c:656-688 | the node is linked in at its place, count and tail are exact, and every iterator is repaired |
| LinkedList.List.NodeDestroy | src/common/list.c:691-724 | the node is taken out, count and tail are exact, and every iterator is repaired |
| LinkedList.List.Append | src/common/list.c:297-309 | the element is the last |
| LinkedList.List.Prepend | src/common/list.c:312-324 | the element is the first |
| LinkedList.List.IteratorCreate | src/common/list.c:519-536 | a new iterator before the first element; the others stay |
| LinkedList.List.IteratorDestroy | src/common/list.c:553-573 | that iterator leaves the chain and no other |
| LinkedList.List.IteratorReset | src/common/list.c:539-550 | the iterator is before the first element again; the others stay |
| LinkedList.List.Next | src/common/list.c:576-591 | the element to come; the cursor moves over it |
| LinkedList.List.Insert | src/common/list.c:594-607 | the new element stands where the address of the iterator leads |
| LinkedList.List.Remove | src/common/list.c:624-637 | the element returned last is removed if the iterator still leads to it, otherwise nothing happens |
| LinkedList.List.DeleteAll | src/common/list.c:349-376 | exactly the elements picked go, the others keep their order, their number is returned, and every iterator is where one removal after the other would have led it |
| LinkedList.WithoutLeaves | src/common/list.c:349-376 | what is left are all elements that are not picked, in their order, and no others |
| LinkedList.List.Relink | src/common/list.c:415-424 | the three pointer assignments of the sort move one node in front of another |
| LinkedList.List.SortNodes | src/common/list.c:410-431 | the insertion loop permutes the nodes whatever the comparison answers, and sorts them stably if it is an order |
| LinkedList.List.Sort | src/common/list.c:401-443 | a stable sorted permutation of the same nodes, with an exact tail and all iterators at the start |
| LinkedList.StableInsert | src/common/list.c:413-424 | a node from behind, put before the first larger one, keeps a sorted prefix sorted and stable |
| ListRuns.NeverSkipsNorRepeats | src/common/list.c:576-724 | through every interleaving of insertions and removals an iterator returns nothing twice, keeps to the order of the list, and at the end has returned all that was there at the start and stayed |
| ListRuns.Perform | src/common/list.c:297-652 | every call of a list method - to append, prepend, pop, delete all that is picked, or insert, remove and go on through any iterator - is a sequence of such insertions and removals for a given iterator, and what list_next returns through it is what the run returns |
| ListRuns.Iterate | src/common/list.c:518-608 | for every sequence of these calls after list_iterator_create: what the iterator has returned is the data of nodes, of none twice, in the order of the list, and at the end it has returned all that were there at the start and stayed |
| ListRuns.StillLeadsToIt | src/common/list.c:624-637 | after a removal by other means an iterator can still remove what it returned last if and only if neither that nor the element to come was removed |
| Wcoll.Ctx.PathLookup | src/pdsh/wcoll.c:109-134 | the first directory of the path that has the file |
| Wcoll.Ctx.FileIsCached | src/pdsh/wcoll.c:96-102 | whether the path was seen; it is now |
| Wcoll.Ctx.ReadLine | src/pdsh/wcoll.c:203-223 | a line includes a file, or the names that it gives are appended |
| Wcoll.OwnHostsAre | src/pdsh/wcoll.c:203-223 | the names that a line gives are those that the text before its first `#` is read as, without the blanks around it; none if there is no text, or no list |
| Wcoll.IncludedIs | src/pdsh/wcoll.c:136-174 | for every line and name: the line includes the file if and only if it is `#include` and the name, without blanks in it, and nothing but blanks in front of the name and behind it |
| Wcoll.ResolvedIs | src/pdsh/wcoll.c:105-200 | for every name: it is taken as it is if it begins with a slash, or with one or two dots and a slash, and otherwise stands for the file in the first directory of the path that has it |
| Wcoll.Ctx.ReadStream | src/pdsh/wcoll.c:225-235 | the lines in order |
| Wcoll.Ctx.ReadFile | src/pdsh/wcoll.c:249-276 | the file where it is included, unless its path was seen; this terminates for every finite graph of inclusions, cyclic or not |
| Wcoll.BlankIsOptional | src/pdsh/wcoll.c:136-174 | what follows `#include` is read the same with a blank in between |
| Wcoll.IncludeFoo | src/pdsh/wcoll.c:136-174 | so `#includefoo` includes foo |
| Wcoll.LinesGrow | src/pdsh/wcoll.c:249-276 | reading expands only paths that were not cached, each once |
| Wcoll.ExactlyReachable | src/pdsh/wcoll.c:249-289 | reading by name expands exactly the files that are reached by inclusions, each once |
| Wcoll.ExactlyFrom | src/pdsh/wcoll.c:325-353 | reading a stream expands exactly the files that its lines reach, each once |
| Wcoll.ReadIsState | src/pdsh/wcoll.c:203-276 | whatever satisfies the requirement on a reading - every line of the text and of every opened file in turn, each with the names that it gives and, in front of them, with what is read in the file that it opens, and a file opened exactly if it has not been - gives the names, the log and the cache that are left behind |
| Wcoll.StateIsRead | src/pdsh/wcoll.c:203-276 | and whenever reading succeeds there is such a reading |
| Wcoll.ReadAgain | src/pdsh/wcoll.c:325-353 | a file read as a stream is read once more if and only if it includes itself on some way |
| Wcoll.ReadWcollPath | src/pdsh/wcoll.c:278-289 | succeeds if and only if there is such a reading, and the names are those of it, line by line, those of an included file in front; the files opened are the reachable ones, each once |
| Wcoll.ReadWcoll | src/pdsh/wcoll.c:325-353 | the same for a stream |

## Left out

- HostlistSort.Sort: asks for numbers less than 2^31 apart under one prefix, as the comparator needs it (`HostRanges.CmpIsOrder`).
- HostlistUniq.Uniq: asks for lowest numbers less than 2^31 apart under one prefix, for the same reason.
- HostlistSort.QSort: an insertion in place of the C library's qsort, of which only the permutation into the comparator's order is used; it asks for lowest numbers less than 2^31 apart under one prefix.
- HostlistSort.CoalesceOverlaps: asks for numbers less than 2^31 apart under one prefix.
- Hostlist.Hostlist.Nth: gives the whole name, where the source has a buffer of MAXHOSTNAMELEN + 16 characters for it.
- HostlistParse.Create: a range that reaches the largest unsigned long ends the model where it would be pushed; and a name of 1024 characters or more is cut to 1023, which in the source may lack its NUL.
- HostlistParse.Push: pushes nothing for a text with a range that reaches the largest unsigned long.
- PcpServer.Server.Sink: says nothing about a client that sends anything else than well-formed trees for which there is room; the error replies are only a flag.
- PcpServer.Server.TakeFile: a file that cannot be opened for lack of access rights, and writes that fail, are not modelled.
- PcpServer.Server.TakeDir: access rights and the umask are not modelled. A directory is made with its final mode, so one that is sent without write permission for its owner cannot be filled by an ordinary user. Paths are compared as texts: links, dots and doubled slashes are not resolved.
- PcpCopy.Copy: the two programs are run one after the other; that they may be interleaved rests on `PcpCopy.NeverStuck` and on each side being sequential.
- Fanout.Safe: assumes a condition wait that returns only after a signal, and kill_on_fail off; the watchdog, the delivery of signals and the freeing of the thread array are not modelled.
- Wcoll.Ctx.ReadFile: a program exit is the answer `false`, after which nothing is said about the state.
- Hostlist ranges are values in a `seq`, not heap objects; the pointer that an iterator caches to its range, the capacity of the array and its reallocation are not modelled.
- The iterator chains of both kinds of lists are `seq` fields.
- Internal mutexes, debug magic numbers, failing allocations and the free lists of list.c.
- Fixed buffers other than those of cbuf and of the copy server: truncated printing of host lists, path names of 4096 characters, lines of a host file longer than the read buffer.
- The counts of hosts are unbounded integers; the source's int could overflow.
- Strings, unlike the bytes of a command's output, hold no NUL character; characters are compared by their codes.
- Reassembly.FlushLines: the label with the host name before each line is not modelled.
- Reassembly.FlushOutput: nor is the one before the first piece.
- Reassembly.Session: the same labels, and return codes that do not fit an int.
- File times, ownership and the umask of a copy; the record of times is exchanged and its effect left out. Mode bits are those sent.
- hostset_insert and hostset_insert_range, hostlist_pop_range and hostlist_shift_range, whose bookkeeping does not keep what their comments say.
- The reckless expansion of host ranges, which the configuration selects on AIX only.
- Regular expressions: a filter is any predicate on names.
- Remote modules, privilege separation, polling, argument parsing, the user interface and the scripts.
