# libevent 2.0.22 in Dafny

A model of the libevent that the game server vendors, in seven components, each proved against what
its callers rely on.

* **Byte queues** (`Chunks`, `Evbuffers`, `EvbufferSplice`, `EvbufferPullup`, `EvbufferReserve`,
  `EvbufferCommit`, `EvbufferSearch`, `EvbufferValidate`, `EvbufferRun`, `EvbufferLimits`). An `evbuffer` is a linked
  list of chunks with a cached length, a `last` pointer and `last_with_datap`, which addresses the *next-field* that
  leads to the last chunk with data. Memory is a finite map from addresses to chunk headers with their bytes;
  the operations walk, rewrite, link and free chunks in it. `Valid` says that the list is whole, that the
  cached length is right, and that only empty chunks come after the one that `last_with_datap` leads to;
  `Tight` adds that this chunk is the last one; `Packed` adds that no empty chunk comes before it; `Pointed` is
  `Valid` with `last_with_datap` leading to any chunk of the list. `Kept` says that an operation touches nothing but
  its own chunks and new ones. The class `EvbufferRun.Buffers` holds any number of Valid buffers in one memory, whose
  methods speak of byte strings; `EvbufferRun.Run` carries that over to every run, with the check of
  `EvbufferValidate` after each operation.
* **Registration of descriptors** (`Evmap`). Reference counts for each descriptor, the change list that
  is flushed with one `epoll_ctl` for each descriptor, and the immediate back end, over a kernel with the
  ADD, MOD and DEL rules of epoll.
* **The event loop** (`Timevals`, `EventQueues`, `EventLoop`, `EventDispatch`, `EventTimeouts`,
  `EventPriorities`, `EventBases`), with its flags, loopbreak, loopexit and what it returns. An event can be on the
  inserted queue, on the active queue of its priority, and in the heap of timeouts or on the list of a common
  timeout; each such list is served by one timer in the heap. What callbacks and other threads do is data (`Act`,
  `Step`, `Turn`), so the theorems are about every schedule of calls.
* **DNS names** (`DnsNames`) with compression pointers (RFC 1035, sections 3.1 and 4.1.4), and the
  **requests in flight** (`DnsInflight`) on circular lists by transaction id.
* **Rate limits**: the token bucket (`TokenBucket`), one bufferevent with its suspend bits, its refill timer and its
  share in a group (`RateLimit`), and the locking protocol of a group, as a state machine whose steps are those of
  interleaved threads: for one side (`RateGroup`), and for reading and writing together (`RateGroupSides`), of which
  each is shown to follow the machine for one side.
* **Tagged items** (`EventTagging`): nibble-packed integers, base-128 tags, and the marshalling built on them,
  on the buffers of `EvbufferRun`.
* **IPv6 text** (`Ipv6Text`, RFC 4291 section 2.2): printing with the longest gap left out, and parsing.

`Basics` holds what they share. `dafny verify dfyconfig.toml` checks everything.

## What the code turns out not to do

* `evbuffer_add` writes to the last chunk wherever `last_with_datap` is. `Evbuffers.AddAnywhere` has no condition on
  where that is: the bytes are appended, and afterwards `last_with_datap` is right, behind, or the assertion in
  `evbuffer_chain_insert` fails, exactly as `AddFate` says from the mark, the room in the last chunk and the
  length. After `evbuffer_expand` on a buffer with a full last chunk, adding the bytes that were made room for
  always leaves it behind (`EvbufferLimits.ExpandThenAdd`; in one buffer, `EvbufferLimits.AddAfterExpand`). Bytes
  written to such a buffer by `evbuffer_reserve_space` and `evbuffer_commit_space` then come before those that were
  added first (`EvbufferLimits.AddThenWrite`; in one buffer, `EvbufferLimits.OutOfOrder`).
* `evbuffer_remove_buffer` leaves `last_with_datap` of the source wrong exactly if it takes some but not all bytes,
  and these are all in one chunk with only empty chunks before it: `SourceKept` in `EvbufferSplice.RemoveBuffer`,
  whose `RemoveFate` says the same of the destination. A commit of nothing in the first and of something in the
  second of two reserved chunks makes such a source (`EvbufferLimits.CommitThenRemove`,
  `EvbufferLimits.RemoveFromSecond`).
* `evbuffer_commit_space` takes a single iovec in the last chunk, and leaves `last_with_datap` wrong exactly if that
  chunk is more than one past the last one with data: `Overshoots` in `EvbufferCommit.CommitSpace`, and
  `EvbufferLimits.CommitFar` and `EvbufferLimits.CommitInThird`.
* `evbuffer_reserve_space` for a single iovec can hand out a chunk that `evbuffer_commit_space` then refuses:
  `EvbufferCommit.ReserveWriteCommit` succeeds exactly unless `Skips` holds of the buffer and the size, as it does
  in `EvbufferLimits.OneVecRefused`.
* The resize branch of `evbuffer_expand_singlechain` is reached only for sizes no chunk can have, because its overflow
  test (buffer.c:1803-1804) is the wrong way round. If off + datlen wraps (`Wraps`), it allocates by the wrapped
  length; `EvbufferReserve.WrappedRoom` says for which of these the bytes that it then copies do not fit.
* `evbuffer_prepend` of bytes that can be counted fails exactly if what does not fit in front of the first chunk is
  more than a chunk can hold, and by then it has filled the room in front of that chunk with the end of the data:
  `Evbuffers.Prepend`.
* A flush that turns a registration into EPOLL_CTL_MOD after one of two edge-triggered events is deleted loses
  EPOLLET: `Evmap.EventBase.Dispatch` says for which changes the kernel has it afterwards (`EdgeOn`), and
  `Evmap.EdgeLost` adds two such events, flushes, deletes one and flushes again.
* A persistent event whose timeout is negative can be scheduled in the past; `EventPriorities.PersistClosure` says
  exactly when (`NotPast`), and in `EventBases.ScheduledBack` it is.
* With the limit above the maximum, as a negative `bufferevent_decrement_read_limit` can make it, the bucket update
  that avoids overflow cuts the limit down only if the ticks bring as much as the difference wrapped round to 64
  bits: `TokenBucket.RefillOver`, if and only if; otherwise the limit goes on growing, as in
  `TokenBucket.RefillOverFails`.
* A compression pointer leads back exactly if it points into the first 0x4000 bytes (`DnsNames.PointerIs`), which
  `dnsname_to_labels` does not check: a name whose pointer would go further (not `Near`) ends in one that goes
  elsewhere (`Strays`), so that the names of a message come back up to the first such name, and all of them if the
  message is shorter than that (`DnsNames.RoundTrip`). In `DnsNames.FarName` the name "a" becomes the empty name.
* It also writes the last zero without checking `buf_len`: one byte beyond it exactly if `Overruns` holds
  (`DnsNames.DnsnameToLabels`), as for the name in `DnsNames.ZeroBehind`.
* `name_parse` does not check the length of a label against that of the packet; it copies bytes from beyond memory
  exactly if a label that fits the output reaches there, which takes fewer than 63 bytes behind the packet
  (`DnsNames.NameParse`).
* A member of a group whose min_share is 0 asks the kernel for no bytes, and takes the answer for the end of the
  stream, exactly if it is not suspended and the group has fewer bytes left than members (`Starved` in
  `RateLimit.Bufferevent.ReadCb`; in one group, `RateLimit.AskedForNothing`).
* `evutil_inet_ntop` takes a buffer with room for the text but not for the zero after it, and drops the last
  character: `Ipv6Text.CopiedWhole`, if and only if. In `Ipv6Text.CutShort` that makes ::12 into ::1.
* `evutil_inet_pton` takes one colon behind the last word, as in 1:2:3:4:5:6:7:8: (the loop does not look at what comes
  after it), and 0x before a word of up to two digits, which strtol skips: `Ipv6Text.TextIs`, for every text
  without a dot.
* A member that another thread has locked while its group is being suspended is not suspended by that, and goes on
  until it asks for its grant: `RateGroup.WalkSuspends` says that these are all.
* The bytes of a tag are written least significant group first; the example in the header of event_tagging.c
  has them the other way round. The model follows the code.

## Model

| member | source | states |
|---|---|---|
| Chunks.ChainNew | gamingcity_server/3rdParty/libevent-2.0.22-stable/buffer.c:154-189 | A request over the limit is refused; otherwise a fresh empty chunk is added to memory, and nothing else changes: with its header it has 1024 bytes, or less than twice what is asked for, or for half of CHAIN_MAX and more exactly that. |
| Chunks.FreeAllChains | gamingcity_server/3rdParty/libevent-2.0.22-stable/buffer.c:237-245 | Exactly the chunks of the list leave memory. |
| Evbuffers.FreeTrailingEmptyChains | gamingcity_server/3rdParty/libevent-2.0.22-stable/buffer.c:272-285 | The chunks after the last one with data are freed, the list ends there, and the bytes stay the same. |
| Evbuffers.ChainInsert | gamingcity_server/3rdParty/libevent-2.0.22-stable/buffer.c:290-319 | A chunk goes to the end in place of the spare ones: its bytes are appended, last and last_with_datap are right again (Tight is needed for a chunk with data), and the buffer becomes Tight with it; its assertion fails exactly if data comes after the first empty chunk, which no Valid buffer has. |
| Evbuffers.AdvanceLastWithData | gamingcity_server/3rdParty/libevent-2.0.22-stable/buffer.c:653-667 | last_with_datap moves on over chunks with data, up to the last chunk or one that an empty chunk follows. |
| Evbuffers.Add | gamingcity_server/3rdParty/libevent-2.0.22-stable/buffer.c:1543-1634 | On a Tight buffer, refused exactly for sizes that do not fit, changing nothing; otherwise the data is appended, and the buffer stays Tight. |
| Evbuffers.AddAnywhere | gamingcity_server/3rdParty/libevent-2.0.22-stable/buffer.c:1543-1634 | Refused exactly for sizes that do not fit, changing nothing; otherwise the data is appended, unless an assertion breaks it off, and the buffer is Valid afterwards: both exactly as told from where last_with_datap is, the room in the last chunk (with up to 2048 bytes moved to its start) and the length. |
| Evbuffers.Prepend | gamingcity_server/3rdParty/libevent-2.0.22-stable/buffer.c:1636-1716 | The data comes in front; Valid, Tight and Packed are kept; it fails exactly if the data cannot be counted or what does not fit the room in front is more than a chunk holds, and then exactly that room is filled. |
| Evbuffers.Drain | gamingcity_server/3rdParty/libevent-2.0.22-stable/buffer.c:958-1026 | Exactly the first bytes go; last_with_datap and last are aimed anew. |
| Evbuffers.Copyout | gamingcity_server/3rdParty/libevent-2.0.22-stable/buffer.c:1043-1088 | The first bytes, as many as there are, across chunks. |
| Evbuffers.Remove | gamingcity_server/3rdParty/libevent-2.0.22-stable/buffer.c:1029-1041 | What comes out and what stays make up what was there. |
| EvbufferSplice.AppendChain | gamingcity_server/3rdParty/libevent-2.0.22-stable/buffer.c:834-846 | Two lists become one, for any Valid buffers with data in the second, whose last_with_datap is taken over. |
| EvbufferSplice.PrependChain | gamingcity_server/3rdParty/libevent-2.0.22-stable/buffer.c:848-864 | Two lists become one in the other order; a last_with_datap that led to the first chunk now leads to it through the new predecessor. |
| EvbufferSplice.AddBuffer | gamingcity_server/3rdParty/libevent-2.0.22-stable/buffer.c:866-910 | The bytes of one buffer move behind those of another, for any two Valid buffers; both stay Valid, and apart; and when they become Tight and Packed. |
| EvbufferSplice.PrependBuffer | gamingcity_server/3rdParty/libevent-2.0.22-stable/buffer.c:912-956 | The same in front, for Valid buffers. |
| EvbufferSplice.RemoveBuffer | gamingcity_server/3rdParty/libevent-2.0.22-stable/buffer.c:1093-1181 | Conservation, for any two Valid buffers: the first bytes leave one and are appended to the other, unless an assertion breaks it off; that, and whether each is Valid afterwards, is told exactly from the chunks and the length; a Packed source and a Tight destination always are. |
| EvbufferPullup.Pullup | gamingcity_server/3rdParty/libevent-2.0.22-stable/buffer.c:1183-1293 | The bytes do not change; the first n are in a row at the address returned, exactly if there are that many and a chunk can hold them. |
| EvbufferReserve.InsertNew | gamingcity_server/3rdParty/libevent-2.0.22-stable/buffer.c:321-329 | A new empty chunk at the end, for the spare ones. |
| EvbufferReserve.Realign | gamingcity_server/3rdParty/libevent-2.0.22-stable/buffer.c:1719-1726 | One chunk is moved to its start, and no byte of the buffer changes. |
| EvbufferReserve.ExpandSinglechain | gamingcity_server/3rdParty/libevent-2.0.22-stable/buffer.c:1744-1853 | The bytes do not change; the chunk returned has the space, and is the first with space, or the last, or the one that Skips describes; it never fails for what fits into the largest chunk with MAX_TO_COPY_IN_EXPAND bytes more, and always for what fits into none; for which of these sizes an assertion fails, or the chunk is too small for the copy, is told exactly. |
| EvbufferReserve.WrappedRoom | gamingcity_server/3rdParty/libevent-2.0.22-stable/buffer.c:1803-1822 | If off + datlen wraps to a length, the chunk allocated for that length is too small for the off bytes copied into it in exactly three ranges. |
| EvbufferReserve.ExpandFast | gamingcity_server/3rdParty/libevent-2.0.22-stable/buffer.c:1857-1965 | The bytes do not change; afterwards at most n chunks from the first with space on have the space asked for. |
| EvbufferCommit.SetupVecs | gamingcity_server/3rdParty/libevent-2.0.22-stable/buffer.c:2031-2065 | The iovecs lie in the free space of successive chunks from the first with space on, and have the length asked for. |
| EvbufferCommit.ReserveSpace | gamingcity_server/3rdParty/libevent-2.0.22-stable/buffer.c:620-651 | The bytes do not change, and the iovecs returned are free space of at least the size; and which chunk a single one is in; also on a buffer with last_with_datap left behind, if the chunk there has room. |
| EvbufferCommit.CommitSpace | gamingcity_server/3rdParty/libevent-2.0.22-stable/buffer.c:669-737 | Exactly the iovecs that begin where space does (or a single one in the last chunk) are taken, and then what they cover is put where that space is, which is the end of a Valid buffer; otherwise nothing changes. A Valid buffer stays Valid exactly unless a single iovec overshoots. |
| EvbufferCommit.LastVec | gamingcity_server/3rdParty/libevent-2.0.22-stable/buffer.c:684-708 | A single reserved iovec is accepted exactly if it is in the first chunk with space or in the last chunk. |
| EvbufferCommit.ReserveWriteCommit | gamingcity_server/3rdParty/libevent-2.0.22-stable/buffer.c:600-737 | Reserve, write, commit: on a Valid buffer the data written is appended, with two or more iovecs always, with one exactly unless Skips held; on one with last_with_datap left behind it comes before what is in later chunks. |
| EvbufferSearch.FindEolCharIn | gamingcity_server/3rdParty/libevent-2.0.22-stable/buffer.c:1327-1352 | The first CR or LF, although the search goes by pieces of 128 bytes. |
| EvbufferSearch.FindIn | gamingcity_server/3rdParty/libevent-2.0.22-stable/buffer.c:1306-1374 | The first wanted byte at or after the position, across chunks; none exactly if there is none. |
| EvbufferSearch.StrspnEol | gamingcity_server/3rdParty/libevent-2.0.22-stable/buffer.c:1377-1412 | How long the run of CR and LF at the position is, across chunks. |
| EvbufferSearch.PtrSet | gamingcity_server/3rdParty/libevent-2.0.22-stable/buffer.c:2449-2494 | Succeeds exactly for a position with a byte at it, and lands on that byte. |
| EvbufferSearch.PtrMemcmp | gamingcity_server/3rdParty/libevent-2.0.22-stable/buffer.c:2500-2534 | 0 exactly if the bytes at the position, in however many chunks, are those given. |
| EvbufferSearch.SearchRange | gamingcity_server/3rdParty/libevent-2.0.22-stable/buffer.c:2542-2605 | The least match from start on that ends by end; -1 exactly if there is none. |
| EvbufferSearch.Search | gamingcity_server/3rdParty/libevent-2.0.22-stable/buffer.c:2536-2540 | With no end: the least position where the pattern occurs, byte for byte, and -1 exactly if it occurs nowhere. |
| EvbufferSearch.SearchEol | gamingcity_server/3rdParty/libevent-2.0.22-stable/buffer.c:1425-1498 | The first line terminator of the style given, and its length; -1 exactly if there is none. |
| EvbufferSearch.Readln | gamingcity_server/3rdParty/libevent-2.0.22-stable/buffer.c:1500-1537 | Line, terminator and remaining bytes make up what was there, with the terminator the first one, spelled in the bytes 13 and 10 for each style; without one, nothing changes. |
| EvbufferValidate.Validate | gamingcity_server/3rdParty/libevent-2.0.22-stable/test/regress_buffer.c:66-117 | On any Pointed buffer the check of the regression tests says yes exactly if last_with_datap is right. |
| EvbufferLimits.NeverValid | gamingcity_server/3rdParty/libevent-2.0.22-stable/buffer.c:272-319 | A list of chunks is found in one way only: a buffer whose last_with_datap is wrong is Valid with no list at all. |
| EvbufferLimits.FatesOfSpare | gamingcity_server/3rdParty/libevent-2.0.22-stable/buffer.c:1560-1609 | With one empty chunk behind the data, evbuffer_add leaves last_with_datap behind exactly if the data fits into that chunk. |
| EvbufferLimits.FatesOfTwoSpare | gamingcity_server/3rdParty/libevent-2.0.22-stable/buffer.c:290-319 | With two, data that does not fit makes the assertion in evbuffer_chain_insert fail. |
| EvbufferLimits.ExpandThenAdd | gamingcity_server/3rdParty/libevent-2.0.22-stable/buffer.c:1543-1853 | Room made for data behind any full chunk, and the data added there: the bytes are right, and last_with_datap is wrong. |
| EvbufferLimits.AddAfterExpand | gamingcity_server/3rdParty/libevent-2.0.22-stable/buffer.c:1543-1853 | The same for one buffer and one byte. |
| EvbufferLimits.AddThenWrite | gamingcity_server/3rdParty/libevent-2.0.22-stable/buffer.c:600-1634 | Bytes added by evbuffer_add to an empty chunk behind the data, and then others written through a reserved iovec: they come out the other way round. |
| EvbufferLimits.OutOfOrder | gamingcity_server/3rdParty/libevent-2.0.22-stable/buffer.c:600-1634 | The same for one buffer: 1, 2 are added, then 3 is written, and the buffer ends in 3, 1, 2. |
| EvbufferLimits.CommitFar | gamingcity_server/3rdParty/libevent-2.0.22-stable/buffer.c:684-694 | Any commit of a single iovec beyond an empty chunk leaves last_with_datap wrong. |
| EvbufferLimits.CommitInThird | gamingcity_server/3rdParty/libevent-2.0.22-stable/buffer.c:684-694 | The same for one buffer. |
| EvbufferLimits.CommitThenRemove | gamingcity_server/3rdParty/libevent-2.0.22-stable/buffer.c:1093-1181 | In any empty buffer with two chunks, a commit in the second only and a removal of part of it: the bytes of both buffers are right, last_with_datap of the source is wrong. |
| EvbufferLimits.RemoveFromSecond | gamingcity_server/3rdParty/libevent-2.0.22-stable/buffer.c:1093-1181 | The same for one buffer and five of ten bytes. |
| EvbufferLimits.OneVecRefused | gamingcity_server/3rdParty/libevent-2.0.22-stable/buffer.c:600-737 | A buffer and a size for which the chunk reserved is not the one that evbuffer_commit_space takes. |
| EvbufferRun.Buffers.Add | gamingcity_server/3rdParty/libevent-2.0.22-stable/buffer.c:1543-1634 | On byte strings: append, for any Valid buffer, with the exact cases of refusal, of a failed assertion and of leaving it Valid. |
| EvbufferRun.Buffers.Prepend | gamingcity_server/3rdParty/libevent-2.0.22-stable/buffer.c:1636-1716 | On byte strings: put in front, and what a failure leaves. |
| EvbufferRun.Buffers.Drain | gamingcity_server/3rdParty/libevent-2.0.22-stable/buffer.c:958-1026 | On byte strings: drop the first bytes. |
| EvbufferRun.Buffers.Remove | gamingcity_server/3rdParty/libevent-2.0.22-stable/buffer.c:1029-1041 | On byte strings: take the first bytes off. |
| EvbufferRun.Buffers.Pullup | gamingcity_server/3rdParty/libevent-2.0.22-stable/buffer.c:1183-1293 | On byte strings: the identity, and the first n bytes read in a row. |
| EvbufferRun.Buffers.Expand | gamingcity_server/3rdParty/libevent-2.0.22-stable/buffer.c:1967-1975 | On byte strings: the identity; which sizes succeed. |
| EvbufferRun.Buffers.Write | gamingcity_server/3rdParty/libevent-2.0.22-stable/buffer.c:600-737 | Reserve, write and commit, on byte strings: append, or nothing exactly if Skips held for a single iovec. |
| EvbufferRun.Buffers.AddBuffer | gamingcity_server/3rdParty/libevent-2.0.22-stable/buffer.c:866-910 | On byte strings: move everything behind; nothing if the two are the same buffer. |
| EvbufferRun.Buffers.PrependBuffer | gamingcity_server/3rdParty/libevent-2.0.22-stable/buffer.c:912-956 | On byte strings: move everything in front; nothing if the two are the same buffer. |
| EvbufferRun.Buffers.RemoveBuffer | gamingcity_server/3rdParty/libevent-2.0.22-stable/buffer.c:1093-1181 | On byte strings: move the first bytes behind, for any Valid buffers, with the exact cases of a failed assertion and of leaving both Valid. |
| EvbufferRun.Buffers.Readln | gamingcity_server/3rdParty/libevent-2.0.22-stable/buffer.c:1500-1537 | On byte strings: cut at the first terminator, spelled in the bytes 13 and 10; nothing exactly if there is none. |
| EvbufferRun.Buffers.Validate | gamingcity_server/3rdParty/libevent-2.0.22-stable/test/regress_buffer.c:66-117 | The check of all buffers says yes exactly if all are Valid. |
| EvbufferRun.LineCut | gamingcity_server/3rdParty/libevent-2.0.22-stable/buffer.c:1500-1537 | What evbuffer_readln leaves is what is left after the first line, which a function of the bytes measures. |
| EvbufferRun.RunOne | gamingcity_server/3rdParty/libevent-2.0.22-stable/buffer.c:600-1975 | One operation on any Valid buffers: its outcome is the one told from the chunks, and the byte strings change as they should. |
| EvbufferRun.Run | gamingcity_server/3rdParty/libevent-2.0.22-stable/buffer.c:600-1975 | Every run, on any number of Valid buffers, of adding, putting in front, draining, removing, pulling up, moving between buffers, expanding, writing through iovecs and reading lines, checked after each operation: up to the first one that goes wrong, the buffers hold what the same run makes of byte strings; which operation goes wrong, and how, is told by the chunks before it; none does if the buffers have no empty chunks and the operations leave none. |
| EvbufferRun.TotalRun | gamingcity_server/3rdParty/libevent-2.0.22-stable/buffer.c:600-1975 | Conservation over every run: bytes in the buffers and bytes taken out are bytes there were and bytes put in. |
| EvbufferRun.FirstInFirstOut | gamingcity_server/3rdParty/libevent-2.0.22-stable/buffer.c:600-1975 | Buffers as a pipeline: in every run bytes come out in the order in which they were put in. |
| Evmap.EventBase.MakeSpace | gamingcity_server/3rdParty/libevent-2.0.22-stable/evmap.c:201-223 | The table grows past the slot, and no entry changes. |
| Evmap.EventBase.IoAdd | gamingcity_server/3rdParty/libevent-2.0.22-stable/evmap.c:262-331 | -1 and nothing registered exactly if a counter would overflow, 1 exactly if the interest in the descriptor changes; which change is then on the list; the invariant that every entry of the list leads from what the kernel has to what is wanted is kept. |
| Evmap.EventBase.IoDel | gamingcity_server/3rdParty/libevent-2.0.22-stable/evmap.c:335-387 | The event is taken off, 1 exactly if the interest changes; which change is then on the list; and the same invariant is kept. |
| Evmap.EventBase.GetOrConstruct | gamingcity_server/3rdParty/libevent-2.0.22-stable/evmap.c:615-644 | Afterwards there is exactly one change for the descriptor, found through idxplus1; changes for others stay. |
| Evmap.EventBase.ChangelistAdd | gamingcity_server/3rdParty/libevent-2.0.22-stable/evmap.c:646-675 | The change leads to the old interest with more added. |
| Evmap.EventBase.ChangelistDel | gamingcity_server/3rdParty/libevent-2.0.22-stable/evmap.c:677-726 | The change leads to the old interest with less; an addition that the kernel has not seen is taken back. |
| Evmap.EventBase.RemoveAll | gamingcity_server/3rdParty/libevent-2.0.22-stable/evmap.c:559-578 | The list is empty, no idxplus1 is left, and no registration changes. |
| Evmap.EventBase.Choose | gamingcity_server/3rdParty/libevent-2.0.22-stable/epoll.c:173-262 | The operation chosen is the one for what was there and what shall be: MOD only if something was, ADD only if nothing was, DEL exactly if nothing shall be. |
| Evmap.EventBase.ApplyOneChange | gamingcity_server/3rdParty/libevent-2.0.22-stable/epoll.c:173-330 | Whatever the kernel has for an open descriptor, it has the target afterwards; if it has what the change says, the first epoll_ctl succeeds, so that no retry is made. |
| Evmap.EventBase.ApplyChanges | gamingcity_server/3rdParty/libevent-2.0.22-stable/epoll.c:332-349 | After the flush the kernel watches what the counters ask for, on every descriptor, and no epoll_ctl has failed. |
| Evmap.EventBase.TellNow | gamingcity_server/3rdParty/libevent-2.0.22-stable/epoll.c:351-383 | The back end without a change list reaches the same interest at once. |
| Evmap.EventBase.Dispatch | gamingcity_server/3rdParty/libevent-2.0.22-stable/epoll.c:385-420 | The list is empty, the kernel agrees with the counters, and which descriptors are edge-triggered is told from the changes. |
| Evmap.EdgeLost | gamingcity_server/3rdParty/libevent-2.0.22-stable/epoll.c:173-420 | Two edge-triggered events are added and flushed, one is deleted, and after the next flush the other is level-triggered. |
| Evmap.BothBackends | gamingcity_server/3rdParty/libevent-2.0.22-stable/epoll.c:173-383 | For every run of adds, deletes and dispatches, then one more dispatch: the back end with the change list and the one without leave the kernel with the same interest, which is what the events registered ask for, and no epoll_ctl ever failed. |
| Timevals.TagRoundTrip | gamingcity_server/3rdParty/libevent-2.0.22-stable/event.c:1085-1111 | An index put beside the microseconds is read back, and so are the microseconds. |
| Timevals.CommonIs | gamingcity_server/3rdParty/libevent-2.0.22-stable/event.c:1102-1111 | is_common_timeout is right about every timeval that callers may pass. |
| Timevals.Layout | gamingcity_server/3rdParty/libevent-2.0.22-stable/event.c:1085-1111 | Which bits of tv_usec hold the microseconds, the index and the magic number. |
| EventQueues.CoreInsert | gamingcity_server/3rdParty/libevent-2.0.22-stable/event.c:2590-2630 | Flags and queues agree, each event is once on each queue it belongs to, and both counters are right: kept by putting an event on a queue. |
| EventQueues.CoreRemove | gamingcity_server/3rdParty/libevent-2.0.22-stable/event.c:2520-2557 | The same, for taking one off. |
| EventLoop.QueueRemove | gamingcity_server/3rdParty/libevent-2.0.22-stable/event.c:2520-2557 | Flag, queue and counters change together: the event leaves its one queue, whose order stays, and the lists of common timeouts stay sorted and served. |
| EventLoop.QueueInsert | gamingcity_server/3rdParty/libevent-2.0.22-stable/event.c:2590-2630 | The same for insertion: at the end of a queue, or in order in a common-timeout list, whose timer is then to be set if the event is its new head. |
| EventLoop.PlaceInOrder | gamingcity_server/3rdParty/libevent-2.0.22-stable/event.c:2560-2588 | The place found from the end keeps the list sorted, after those that are no later. |
| EventLoop.CommonTimeoutSchedule | gamingcity_server/3rdParty/libevent-2.0.22-stable/event.c:1142-1151 | The timer of the list is set to the time of its head, so that the list is served; the queues of active events lose at most the timer. |
| EventLoop.AddInternal | gamingcity_server/3rdParty/libevent-2.0.22-stable/event.c:2044-2192 | The event is pending, due at the time given or at now plus the timeout, with the tag of the timeout, and waits in the heap or on the list for that tag; an io event that is not active is inserted; one that is active for an earlier timeout is taken off. -1 and nothing changed exactly if evmap refuses. No other event changes but timers of lists, active events keep their order, and every list is served. |
| EventLoop.TimeoutIs | gamingcity_server/3rdParty/libevent-2.0.22-stable/event.c:2138-2156 | The new ev_timeout stands for now plus the timeout, and keeps the tag of a common timeout. |
| EventDispatch.DelInternal | gamingcity_server/3rdParty/libevent-2.0.22-stable/event.c:2214-2286 | Afterwards the event is not inserted, not active and not pending; no queue has it, and each is otherwise in the same order; the counters go down by its places; no other event changes. |
| EventDispatch.ActiveNolock | gamingcity_server/3rdParty/libevent-2.0.22-stable/event.c:2306-2345 | The event is active, with its results or with one more; if it was not, it is last on the queue of its priority, and counted; event_continue is set exactly if it is newly active and more urgent than what is running. |
| EventDispatch.CommonTimeoutCallback | gamingcity_server/3rdParty/libevent-2.0.22-stable/event.c:1154-1177 | Exactly the events of the list whose time has come expire, and are put behind what was active already, in the order of their times; the list is served again. |
| EventDispatch.TimeoutProcess | gamingcity_server/3rdParty/libevent-2.0.22-stable/event.c:2493-2517 | Exactly the events in the heap whose time has come expire: active for Timeout alone, off the other queues, and behind what was active already, in the order of their times; nothing else changes. |
| EventTimeouts.HeapCovers | gamingcity_server/3rdParty/libevent-2.0.22-stable/event.c:2397-2432 | Any pending timeout, in the heap or on a list, is no earlier than some timeout in the heap. |
| EventTimeouts.TimeoutNext | gamingcity_server/3rdParty/libevent-2.0.22-stable/event.c:2397-2432 | With nothing active, the wait never goes past the earliest deadline of any pending event, and ends at one. |
| EventTimeouts.TimeoutCorrect | gamingcity_server/3rdParty/libevent-2.0.22-stable/event.c:2440-2490 | When the clock has gone back every pending timeout keeps its distance from now, tags and queues stay, and every list is still sorted and served. |
| EventPriorities.PersistClosure | gamingcity_server/3rdParty/libevent-2.0.22-stable/event.c:1256-1320 | A persistent event is scheduled again: its interval after its last deadline, or after now if it did not time out, and after now if that time is past; the new deadline is not before now exactly if the interval is not negative or the last deadline was late enough; active events keep their order. |
| EventPriorities.RunOne | gamingcity_server/3rdParty/libevent-2.0.22-stable/event.c:1335-1380 | One callback: the event is off the active queues, and off every queue if it is not persistent, before it is called; then come the calls made meanwhile, each doing what it should; the timer of a list sweeps its list. |
| EventPriorities.SingleQueue | gamingcity_server/3rdParty/libevent-2.0.22-stable/event.c:1329-1388 | Each callback is the head of the queue, with nothing more urgent active, and is started where the one before it has left the base; none is started after event_break or event_continue is set; otherwise the queue is run empty; and the count is right. |
| EventPriorities.PublicIs | gamingcity_server/3rdParty/libevent-2.0.22-stable/event.c:1329-1388 | The count is 0 exactly if all callbacks were of the library, and all of them if none was. |
| EventPriorities.ProcessActive | gamingcity_server/3rdParty/libevent-2.0.22-stable/event.c:1427-1453 | Strict priority: whenever a callback is started no more urgent event is active, whatever callbacks and other threads activate; each is started where the one before it has left the base, and none after a break; something is run if anything is active; one pass runs the public callbacks of one priority, and nothing as urgent is left active unless it was interrupted. |
| EventBases.EventBase.constructor | gamingcity_server/3rdParty/libevent-2.0.22-stable/event.c:551-654 | A new base satisfies the invariant. |
| EventBases.EventBase.InitCommonTimeout | gamingcity_server/3rdParty/libevent-2.0.22-stable/event.c:1181-1253 | The timeval returned is tagged for its list, stands for the duration and is one that event_add takes; NULL only if there are 256 lists. |
| EventBases.EventBase.Call | gamingcity_server/3rdParty/libevent-2.0.22-stable/event.c:1972-2303 | Each call from outside keeps the invariant and does what it says: what becomes of the event, its queues and the flags. |
| EventBases.EventBase.OneTurn | gamingcity_server/3rdParty/libevent-2.0.22-stable/event.c:1584-1648 | One turn with its flags: the clock is corrected; the backend waits exactly until the first timeout, or not at all; exactly what is due expires, in the order of the times; a chain of callbacks is run; and exactly when the loop ends with it, returning what. |
| EventBases.EventBase.Loop | gamingcity_server/3rdParty/libevent-2.0.22-stable/event.c:1554-1656 | Every run is a chain of turns, each going on from where the one before it has left the base and the clock, from a base whose break and termination flags have been cleared; all but the last go on, and the last tells why it ended: asked to, nothing left, failure, or the flags; every callback is started strictly by priority. |
| EventBases.ScheduledBack | gamingcity_server/3rdParty/libevent-2.0.22-stable/event.c:1256-1320 | A persistent event with a timeout of minus one second: added and run at second ten, it is due next at second nine. |
| DnsNames.NameParse | gamingcity_server/3rdParty/libevent-2.0.22-stable/evdns.c:943-997 | Terminates on every packet; the name and the index after it are those of the reading, and it fails exactly if the reading does or the name does not fit; bytes from beyond memory are copied exactly if a label that fits reaches there, and never with 63 bytes behind the packet. |
| DnsNames.ReadMeans | gamingcity_server/3rdParty/libevent-2.0.22-stable/evdns.c:943-997 | What the bytes mean, with compression pointers only going back, is what is read, and the name ends where it is said to. |
| DnsNames.GetPos | gamingcity_server/3rdParty/libevent-2.0.22-stable/evdns.c:1545-1554 | Finds an entry exactly if the suffix is in the table. |
| DnsNames.PointerIs | gamingcity_server/3rdParty/libevent-2.0.22-stable/evdns.c:1611-1615 | A compression pointer leads back to the position if and only if that is less than 0x4000. |
| DnsNames.PutLabel | gamingcity_server/3rdParty/libevent-2.0.22-stable/evdns.c:1616-1639 | One label more, and one entry more while there are fewer than 128; what the message and the table mean so far is kept. |
| DnsNames.DnsnameToLabels | gamingcity_server/3rdParty/libevent-2.0.22-stable/evdns.c:1584-1649 | Accepted exactly if the labels are proper and what is left after compression fits (Accepts); written out whole if no suffix is in the table, and otherwise up to the first suffix that is, and then a pointer to where the table has it; every suffix written is remembered where it stands while there are fewer than 128; a name of proper labels then means that name, exactly unless it ends in a pointer to 0x4000 or beyond, which leads elsewhere; every entry, old and new, parses back to its suffix; and the last zero goes one byte beyond buf_len exactly for names whose labels end there. |
| DnsNames.ZeroBehind | gamingcity_server/3rdParty/libevent-2.0.22-stable/evdns.c:1584-1649 | A buffer of two bytes, a name, and the zero behind the buffer. |
| DnsNames.WriteNames | gamingcity_server/3rdParty/libevent-2.0.22-stable/evdns.c:1584-1649 | Any number of names with one table: all are written exactly if each is accepted where the one before it ends; which length each has follows from what the table has by then; none is disturbed by later ones; up to the first that refers to 0x4000 or beyond, which strays, all mean what they should. |
| DnsNames.TwoNames | gamingcity_server/3rdParty/libevent-2.0.22-stable/evdns.c:1584-1649 | The name a.b twice in eight bytes: the second is a pointer to the first. |
| DnsNames.SpelledReads | gamingcity_server/3rdParty/libevent-2.0.22-stable/evdns.c:943-997 | name_parse at the start of each gives that name and the start of the next. |
| DnsNames.RoundTrip | gamingcity_server/3rdParty/libevent-2.0.22-stable/evdns.c:1517-1649 | Any list of names written into one message and parsed again comes back, each ending where the next begins, up to the first that refers to 0x4000 or beyond, and wholly in shorter messages; and there is room if there is room without compression. |
| DnsNames.FarName | gamingcity_server/3rdParty/libevent-2.0.22-stable/evdns.c:1584-1649 | The name "a" at 0x4000, written again by its pointer, is parsed as the empty name. |
| DnsInflight.Insert | gamingcity_server/3rdParty/libevent-2.0.22-stable/evdns.c:2669-2684 | The request joins the circle at its end. |
| DnsInflight.Remove | gamingcity_server/3rdParty/libevent-2.0.22-stable/evdns.c:2631-2667 | The circle closes over the request, also when it is the head or alone. |
| DnsInflight.Inflight.Find | gamingcity_server/3rdParty/libevent-2.0.22-stable/evdns.c:478-493 | Finds a request exactly if one with that id is in flight. |
| DnsInflight.Inflight.InsertRequest | gamingcity_server/3rdParty/libevent-2.0.22-stable/evdns.c:2669-2684 | Exactly this request is in flight now as well; all lists stay whole, each request on the list for its id. |
| DnsInflight.Inflight.RemoveRequest | gamingcity_server/3rdParty/libevent-2.0.22-stable/evdns.c:2631-2667 | Exactly this request is no longer in flight. |
| DnsInflight.Inflight.SetMaxRequestsInflight | gamingcity_server/3rdParty/libevent-2.0.22-stable/evdns.c:3329-3358 | The number of lists changes, every request is moved to its new list, and the same requests are in flight. |
| DnsInflight.Run | gamingcity_server/3rdParty/libevent-2.0.22-stable/evdns.c:478-3358 | Every run of insertions, removals, rehashings and searches: the lists hold what the same run makes of a set of requests, and every search answers from that set. |
| DnsInflight.OneAnswer | gamingcity_server/3rdParty/libevent-2.0.22-stable/evdns.c:478-493 | If no two of the set have one id, a search has one answer. |
| TokenBucket.Refill | gamingcity_server/3rdParty/libevent-2.0.22-stable/bufferevent_ratelim.c:86-107 | In 64-bit arithmetic, the branch taken gives min(maximum, limit + ticks * rate) for a limit within the maximum, and brings a higher one down exactly if the ticks are enough for the difference wrapped round. |
| TokenBucket.RefillIs | gamingcity_server/3rdParty/libevent-2.0.22-stable/bufferevent_ratelim.c:72-110 | For a limit within the maximum, the update is min(maximum, limit + ticks * rate). |
| TokenBucket.RefillOver | gamingcity_server/3rdParty/libevent-2.0.22-stable/bufferevent_ratelim.c:72-110 | For a limit over the maximum, the exact condition, on the ticks and the rate, for it to come down to the maximum. |
| TokenBucket.RefillOverFails | gamingcity_server/3rdParty/libevent-2.0.22-stable/bufferevent_ratelim.c:72-110 | A limit of 11 over a maximum of 10, which the next tick raises to 12. |
| TokenBucket.RefillTwice | gamingcity_server/3rdParty/libevent-2.0.22-stable/bufferevent_ratelim.c:72-110 | Updating by a ticks and then by b is updating by a + b. |
| TokenBucket.TicksAre | gamingcity_server/3rdParty/libevent-2.0.22-stable/bufferevent_ratelim.c:79-83 | The 32-bit difference of ticks is the true one, for up to INT_MAX ticks. |
| TokenBucket.UpdatedIs | gamingcity_server/3rdParty/libevent-2.0.22-stable/bufferevent_ratelim.c:72-110 | Both sides of a bucket after n ticks, and the tick remembered. |
| TokenBucket.UpdatedNot | gamingcity_server/3rdParty/libevent-2.0.22-stable/bufferevent_ratelim.c:79-83 | In the same tick, or with the clock gone back, nothing is added. |
| RateLimit.Bufferevent.SuspendRead | gamingcity_server/3rdParty/libevent-2.0.22-stable/bufferevent.c:65-75 | The reason is added, and reading goes off with the first one. |
| RateLimit.Bufferevent.UnsuspendRead | gamingcity_server/3rdParty/libevent-2.0.22-stable/bufferevent.c:77-87 | The reason is taken away, and reading comes back only with the last one, if enabled. |
| RateLimit.Bufferevent.GetReadMax | gamingcity_server/3rdParty/libevent-2.0.22-stable/bufferevent_ratelim.c:199-266 | No more than the updated limit, and in a group no more than the share; 0 from a suspended group, which suspends reading; otherwise, with reading not suspended, the own limit, or else the greater of min_share and the most that every member can have of the bucket, if either is less than that limit; 0 exactly if the group is Starved. |
| RateLimit.Group.SharesCovered | gamingcity_server/3rdParty/libevent-2.0.22-stable/bufferevent_ratelim.c:240-253 | A share is min_share, or the most that every member can have of the bucket, whichever is more; the shares of all members together are no more than the bucket of the group, or than the minimum for each; a share is 0 exactly if min_share is and the bucket has less than a byte for each. |
| RateLimit.Bufferevent.DecrementReadBuckets | gamingcity_server/3rdParty/libevent-2.0.22-stable/bufferevent_ratelim.c:274-310 | The own limit and that of the group go down by what was read; each is suspended exactly if it is used up, and the refill timer is on if the own one is. |
| RateLimit.Bufferevent.DecrementWriteBuckets | gamingcity_server/3rdParty/libevent-2.0.22-stable/bufferevent_ratelim.c:312-348 | The same for writing. |
| RateLimit.Bufferevent.RefillCallback | gamingcity_server/3rdParty/libevent-2.0.22-stable/bufferevent_ratelim.c:395-441 | Each side resumes exactly if its limit is positive again; otherwise the timer is on again. |
| RateLimit.Bufferevent.SetRateLimit | gamingcity_server/3rdParty/libevent-2.0.22-stable/bufferevent_ratelim.c:558-635 | A new limit starts at the rates; a changed one keeps what was left, up to the new maximum; setting, changing and dropping a limit suspend reading exactly if nothing is left, and keep the invariant: an empty bucket means suspended, suspended means that the refill timer is on or being run. |
| RateLimit.Bufferevent.DecrementReadLimit | gamingcity_server/3rdParty/libevent-2.0.22-stable/bufferevent_ratelim.c:900-925 | The limit changes by what the caller says, also past the maximum; reading is suspended or resumed as it should be; and the invariant is kept exactly if the limit stays within the maximum. |
| RateLimit.Bufferevent.ReadCb | gamingcity_server/3rdParty/libevent-2.0.22-stable/bufferevent_sock.c:157-182 | Reads nothing when suspended, otherwise exactly the lesser of the grant and what is there, with the grant told from the limit and the group, and pays for it from both buckets: its own is never overdrawn, the one of the group by no more than min_share; it asks for nothing exactly if the group is Starved. |
| RateLimit.AskedForNothing | gamingcity_server/3rdParty/libevent-2.0.22-stable/bufferevent_sock.c:157-182 | A group of two with one byte left and min_share 0, and a member that asks for nothing. |
| RateLimit.Bufferevent.GroupBecomes | gamingcity_server/3rdParty/libevent-2.0.22-stable/bufferevent_ratelim.c:351-803 | Whatever others do to the group, and joining and leaving it, keeps the invariant; a walk that gets the lock changes just the bit for the group. |
| RateLimit.NeverStuck | gamingcity_server/3rdParty/libevent-2.0.22-stable/bufferevent_ratelim.c:395-441 | Over any sequence of firings of the refill timer, with nothing drawn: a suspended side resumes at the first one that is floor(debt / rate) + 1 ticks after the last update, and is active again exactly if it is enabled and nothing else suspends it; before that it stays suspended, with the timer on. |
| RateLimit.Run | gamingcity_server/3rdParty/libevent-2.0.22-stable/bufferevent_ratelim.c:199-295 | Over every run, whatever a group does meanwhile, in every window of operations no more is read than the burst and rate times the ticks in the window. |
| RateGroup.StepInv | gamingcity_server/3rdParty/libevent-2.0.22-stable/bufferevent_ratelim.c:351-556 | For one side, every step of every thread keeps the invariant, also when a lock is not got or a member is half added: an overdrawn group is suspended; a member of a suspended group is suspended, still to be visited, or was missed. |
| RateGroup.EveryRun | gamingcity_server/3rdParty/libevent-2.0.22-stable/bufferevent_ratelim.c:351-806 | For one side, in every reachable state an overdrawn group is suspended, one that is to try again is not, and between walks a member that is suspended for the group has its group suspended or trying again. |
| RateGroup.MissedIs | gamingcity_server/3rdParty/libevent-2.0.22-stable/bufferevent_ratelim.c:351-372 | In every run, a member is missed only if a suspending walk came by while another thread had it locked, and it has not asked for its grant since. |
| RateGroup.WalkSuspends | gamingcity_server/3rdParty/libevent-2.0.22-stable/bufferevent_ratelim.c:351-372 | In every run, between walks, every member of a suspended group is suspended, except those that such a walk passed over. |
| RateGroup.TurnSuspends | gamingcity_server/3rdParty/libevent-2.0.22-stable/bufferevent_ratelim.c:361-371 | Each turn of a suspending walk suspends the member it comes to, unless another thread has it locked. |
| RateGroup.GrantSuspends | gamingcity_server/3rdParty/libevent-2.0.22-stable/bufferevent_ratelim.c:233-246 | A member of a suspended group that asks for its grant is suspended by that. |
| RateGroup.DecrementIs | gamingcity_server/3rdParty/libevent-2.0.22-stable/bufferevent_ratelim.c:286-307 | A payment takes just its bytes from the group, which is suspended exactly if nothing is left, with a walk to suspend or to resume all members. |
| RateGroup.GroupBudget | gamingcity_server/3rdParty/libevent-2.0.22-stable/bufferevent_ratelim.c:72-556 | In every run, the bytes paid by all members and what is left are no more than the group had at first and what the ticks brought. |
| RateGroup.NobodyLeft | gamingcity_server/3rdParty/libevent-2.0.22-stable/bufferevent_ratelim.c:486-503 | A walk that got every lock leaves nobody suspended. |
| RateGroup.RefillComes | gamingcity_server/3rdParty/libevent-2.0.22-stable/bufferevent_ratelim.c:527-556 | A refill starts a walk that visits every suspended member exactly if something went wrong before or the ticks since the last update, at the rate of the group, bring its bucket up to the share: how long a member waits; and the limit afterwards. |
| RateGroup.ForEachRandomOrder | gamingcity_server/3rdParty/libevent-2.0.22-stable/bufferevent_ratelim.c:473-484 | The walk from a random start goes through the members in a circle, each exactly once. |
| RateGroupSides.MoveSeen | gamingcity_server/3rdParty/libevent-2.0.22-stable/bufferevent_ratelim.c:269-556 | Every step of the group with both sides, refills that walk twice among them, is for each side a step of the machine for one side, or nothing. |
| RateGroupSides.EveryRunBoth | gamingcity_server/3rdParty/libevent-2.0.22-stable/bufferevent_ratelim.c:269-806 | In every reachable state, for reading and for writing: an overdrawn group is suspended, one that is to try again is not; between walks every member of a suspended group is suspended or was missed; and while nobody has the lock of the group a suspended member has its group suspended or trying again. |
| EventTagging.EncodeIntInternal | gamingcity_server/3rdParty/libevent-2.0.22-stable/event_tagging.c:115-136 | The bytes are the nibbles of the integer, as few as it takes, with their number less one and the lowest in the first byte, and then two by two. |
| EventTagging.Encoded | gamingcity_server/3rdParty/libevent-2.0.22-stable/event_tagging.c:115-136 | The bytes of 0x123. |
| EventTagging.ReadIntDigits | gamingcity_server/3rdParty/libevent-2.0.22-stable/event_tagging.c:306-341 | From any bytes: an integer is read exactly if the first byte counts no more nibbles than allowed and than there are, and its digits are those nibbles. |
| EventTagging.ReadIntSpelled | gamingcity_server/3rdParty/libevent-2.0.22-stable/event_tagging.c:306-341 | Bytes that spell an integer are read back as that integer, whatever follows, and just those bytes. |
| EventTagging.TagBytes | gamingcity_server/3rdParty/libevent-2.0.22-stable/event_tagging.c:171-192 | The bytes are the tag in groups of seven bits, the lowest first, all but the last with the high bit, and as few as it takes. |
| EventTagging.Tagged300 | gamingcity_server/3rdParty/libevent-2.0.22-stable/event_tagging.c:171-192 | The two bytes of the tag 300. |
| EventTagging.ReadTagIs | gamingcity_server/3rdParty/libevent-2.0.22-stable/event_tagging.c:194-233 | From any bytes: a tag is read exactly if some byte is without the high bit, and it is the groups of seven bits up to the first such byte, modulo 2^32. |
| EventTagging.ReadTagSpelled | gamingcity_server/3rdParty/libevent-2.0.22-stable/event_tagging.c:194-233 | Bytes that spell a tag are read back as that tag, whatever follows. |
| EventTagging.DecodeTag | gamingcity_server/3rdParty/libevent-2.0.22-stable/event_tagging.c:194-239 | The tag and its length, and just its bytes are drained; -1 and nothing drained if there is no tag; lost exactly if five bytes do not end it and more follow, where C defines nothing. |
| EventTagging.DecodeIntInternal | gamingcity_server/3rdParty/libevent-2.0.22-stable/event_tagging.c:306-364 | The integer at the offset and its length, with nothing drained; -1 if the buffer ends too early or it is too long. |
| EventTagging.DecodeInt | gamingcity_server/3rdParty/libevent-2.0.22-stable/event_tagging.c:366-384 | The integer, and just its bytes are drained. |
| EventTagging.Marshal | gamingcity_server/3rdParty/libevent-2.0.22-stable/event_tagging.c:247-254 | An item is appended: the shortest tag, the shortest length, and the payload. |
| EventTagging.MarshalInt | gamingcity_server/3rdParty/libevent-2.0.22-stable/event_tagging.c:267-288 | An item whose payload is the shortest spelling of the integer is appended. |
| EventTagging.ItemReads | gamingcity_server/3rdParty/libevent-2.0.22-stable/event_tagging.c:386-442 | An item is read back part by part: tag, length, payload, and then what follows it. |
| EventTagging.UnmarshalHeader | gamingcity_server/3rdParty/libevent-2.0.22-stable/event_tagging.c:428-442 | What the header gives, and what is left in the buffer, for every input unless its tag is lost: told from how its tag and length are read. |
| EventTagging.HeaderOfItem | gamingcity_server/3rdParty/libevent-2.0.22-stable/event_tagging.c:428-442 | The header of a marshalled item gives its tag and the length of its payload, and leaves just the payload and what follows. |
| EventTagging.Unmarshal | gamingcity_server/3rdParty/libevent-2.0.22-stable/event_tagging.c:457-471 | The payload moves to the end of the other buffer, and just the item leaves the first; lost with its tag. |
| EventTagging.Consume | gamingcity_server/3rdParty/libevent-2.0.22-stable/event_tagging.c:444-453 | Just the item is dropped; lost with its tag. |
| EventTagging.PeekLength | gamingcity_server/3rdParty/libevent-2.0.22-stable/event_tagging.c:392-424 | The length of the payload, or of the whole item modulo 2^32, with nothing drained; lost with the tag. |
| EventTagging.LengthsOfItem | gamingcity_server/3rdParty/libevent-2.0.22-stable/event_tagging.c:392-424 | Both lengths of a marshalled item are right. |
| EventTagging.UnmarshalInt | gamingcity_server/3rdParty/libevent-2.0.22-stable/event_tagging.c:475-525 | The integer of the item with the tag wanted, and what is left in the buffer in each case of failure; lost with the tag. |
| EventTagging.TaggedIntIs | gamingcity_server/3rdParty/libevent-2.0.22-stable/event_tagging.c:475-525 | What that leaves, case by case: no tag, another tag, no length, an integer that does not read, or the integer. |
| EventTagging.TaggedIntOfItem | gamingcity_server/3rdParty/libevent-2.0.22-stable/event_tagging.c:475-525 | A marshalled integer is read back, and just its own bytes are taken. |
| EventTagging.RoundTrip | gamingcity_server/3rdParty/libevent-2.0.22-stable/event_tagging.c:247-471 | Any list of items with payloads below 2^31 bytes, marshalled into one buffer and unmarshalled again, comes back as it was. |
| Ipv6Text.LongestGap | gamingcity_server/3rdParty/libevent-2.0.22-stable/evutil.c:1633-1652 | The first of the longest runs of at least two zero words; -1 exactly if there is none. |
| Ipv6Text.PrintWords | gamingcity_server/3rdParty/libevent-2.0.22-stable/evutil.c:1654-1670 | The words with colons between them, and the gap left out wherever it is. |
| Ipv6Text.CopiedWhole | gamingcity_server/3rdParty/libevent-2.0.22-stable/evutil.c:1671-1674 | The text is given back whole if and only if there is room for it and a zero. |
| Ipv6Text.Ntop | gamingcity_server/3rdParty/libevent-2.0.22-stable/evutil.c:1605-1674 | The text of the address in one of its three forms, as far as it is copied. |
| Ipv6Text.TextLength | gamingcity_server/3rdParty/libevent-2.0.22-stable/evutil.c:1605-1674 | No text is longer than 39 characters, so that it fits the buffer of 64. |
| Ipv6Text.FormOf | gamingcity_server/3rdParty/libevent-2.0.22-stable/evutil.c:1616-1632 | Dots are printed exactly for addresses that end in one of IPv4. |
| Ipv6Text.HexDigitIs | gamingcity_server/3rdParty/libevent-2.0.22-stable/evutil.c:1656-1667 | Digits are printed in lower case. |
| Ipv6Text.HexValueIs | gamingcity_server/3rdParty/libevent-2.0.22-stable/evutil.c:1736-1747 | Digits are read in both cases, and nothing else is one. |
| Ipv6Text.PtonWords | gamingcity_server/3rdParty/libevent-2.0.22-stable/evutil.c:1736-1762 | The loop reads exactly the words of the specification. |
| Ipv6Text.Pton | gamingcity_server/3rdParty/libevent-2.0.22-stable/evutil.c:1701-1786 | 1 and the address exactly if the text parses, otherwise 0. |
| Ipv6Text.TextIs | gamingcity_server/3rdParty/libevent-2.0.22-stable/evutil.c:1701-1786 | Any text without a dot parses exactly if it is eight words of one to four digits with colons between them, or fewer with one gap, with two exceptions that strtol and the loop make: 0x before a word, and a colon behind the last. |
| Ipv6Text.Capitals | gamingcity_server/3rdParty/libevent-2.0.22-stable/evutil.c:1701-1786 | The address that FE80::1 stands for. |
| Ipv6Text.ParseText | gamingcity_server/3rdParty/libevent-2.0.22-stable/evutil.c:1605-1786 | The text of any words, in any of the forms and with the gap anywhere, parses back to those words. |
| Ipv6Text.ThereAndBack | gamingcity_server/3rdParty/libevent-2.0.22-stable/evutil.c:1605-1786 | Every 128-bit address comes back from its text, given room for 40 characters. |

## Left out

Byte queues:

- The heap: memory is a map that the methods take and return, so update in place is explicit, and aliasing is what `Both` and `Kept` say about addresses; a Dafny heap is not used.
- Pinned, immutable, reference, mmap and sendfile chunks, callbacks and their counters, freeze flags, locks, file and socket I/O.
- Allocation fails only where evbuffer_chain_new refuses a size; sizes are unbounded, with SIZE_MAX checked where the code checks it, except that `EvbufferSearch` asks for a length of at most SIZE_MAX.
- EvbufferRun.Run: asks that all bytes of the run can be counted in a size_t and no piece exceeds the largest chunk, so that no operation is refused; an operation that fails an assertion or is declined ends the run.

Registration:

- Signals, EPERM, failure to allocate, the debug check for mixed edge and level triggering; runs assume that descriptors stay open while events are registered on them.
- Evmap.BothBackends: says nothing about edge triggering, which the change list does not keep; `Evmap.EventBase.Dispatch` says what becomes of it at each flush.

Event loop:

- Signals, deferred callbacks, a second event_base_loop inside a callback, waking the loop from other threads, waiting for a running callback in event_del; the event that event_base_loopexit adds is any event whose callback makes the call ActLoopexit.
- The heap is a list of which a least element is taken, since minheap-internal.h is not part of this model; what evmap answers is a parameter.
- A `Base` is a value that methods take and return, and only the class around it is updated in place.
- EventLoop.AddInternal: durations with more than 1000000 microseconds behind the tag, which evutil_timeradd would carry only once.
- EventPriorities.ProcessActive: runs as many callbacks as it is given steps for, and a callback is the calls it makes; a turn that is given too few ends early.

DNS:

- Message headers, request_parse, replies, timers, retries, the choice of transaction ids: fixed-width fields and life cycles would only add easy members.
- DnsNames.DnsnameToLabels: takes the byte behind `buf_len` to be in memory, for the zero that `Overruns` describes; names with empty labels or a dot at the end are not claimed to come back.

Rate limits:

- Reading and writing sockets, timers that cannot be set, `bufferevent_writecb` and the grant for writing, which is the one for reading with other fields, watermarks, end of file and errors, which do not touch the bucket.
- MAX_TO_READ_EVER, which the code overwrites when a limit is set; it is the grant only without one.
- RateGroupSides.EveryRunBoth: ticks and min_share are parameters of the steps; a new configuration for a group is not one.
- RateLimit.Bufferevent.DecrementReadLimit: asks that the limit does not overflow its signed type.

Tagged items:

- A tag that goes on past five bytes, of which only five are in a row and the sixth would be shifted by 35: the readers say exactly when (`TagShort`), and nothing about what they then do.
- Strings, timevals and fixed-size payloads, which are evtag_marshal and evtag_unmarshal again.
- EventTagging.RoundTrip: payloads of 2^31 bytes and more do not come back, since the length is returned as an int.

IPv6 text:

- The AF_INET branches, and integers that overflow scanf's %d or strtol, which are unbounded here.
