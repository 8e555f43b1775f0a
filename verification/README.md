# Models and proofs for libevent's buffers and rate limits, and for smaller cores of the server

This project models, in Dafny 4.11, the parts of the repository where the state is hardest to keep in
one's head, and proves what they promise.

| files | what they model |
|---|---|
| `Evbuffer*.dfy` | libevent's `evbuffer`: a byte string in a singly linked list of memory chains |
| `TagWire.dfy`, `EventTagging.dfy` | the tagged wire format of `event_tagging.c`, on evbuffers |
| `TokenBuckets.dfy`, `Bufferevents.dfy`, `RateLimitGroups.dfy` | rate limiting: bucket arithmetic, the suspension of a bufferevent, and the group protocol |
| `BuffereventPair.dfy` | the two-ended pipe of `bufferevent_pair.c`, on evbuffers |
| `ByteBuffers.dfy` | the ring buffer `cByteBuffer` and its number formats |
| `Md5Block.dfy`, `Md5Stream.dfy` | the server's streaming MD5 |
| `HttpChunks.dfy` | the incremental decoder of chunked HTTP responses |
| `Utf8.dfy` | the UTF-8 to UTF-16 converter |
| `LinearUpscale.dfy` | the bilinear upscalers, in place and between two arrays |
| `Bytes.dfy`, `Base128.dfy`, `CInts.dfy`, `Options.dfy` | shared definitions |

## How the evbuffer is modelled

A `Chain` is an object with `next`, a fixed `buffer`, `misalign` and `off`. An `Evbuffer` has `first`,
`last`, `totalLen`, the two counters, the freeze flags, and `lwd`, the chain that owns the `next` field
which `last_with_datap` points at (null stands for the buffer's own `first`). Ghost fields list the
chains, the bytes each holds (`parts`) and the position `k` of `*last_with_datap`. `Contents()` is the
concatenation of the parts. Three invariants are told apart:

* `Shape`: the list is what the ghost fields say, all memory is owned once, `last` is the final chain,
  `total_len` is the sum of all `off`, every chain has `misalign + off <= buffer_len`.
* `Valid`: also `*last_with_datap` is the last chain with data, or the first chain if all are empty.
* `Tidy`: also no empty chain lies beside another chain. Only making room leaves this class.

Every operation of the evbuffer is stated for all `Valid` buffers, `evbuffer_add` even for all of `Shape`,
and, apart from making room, shown to keep `Tidy` ones tidy. Where the code breaks `Valid` or trips an
assertion, the contract says exactly when; the out-parameter `aborted` stands for a tripped assertion, and
nothing is claimed about what would follow if it were compiled out. `EvbufferStale.dfy` reaches such states
from a new buffer, one for each function that leads there, and `EvbufferRun.dfy` shows that without making
room none is ever reached, and with it just when one is. Memory allocation is the parameter `malloc`, which
says for each size whether it is granted; `NeverFails` is assumed only where a result needs it.

Most methods of the evbuffer change state; the pure lemmas beside them say what the new state means.

## What the code does differently from its documentation

* `evbuffer_add` writes into `last`. Behind an empty trailing chain left by a reservation this leaves
  `last_with_datap` stale (`AddKeepsExact`, `StaleAfterAdd`), and behind two of them it trips an assertion
  when the data spill out of the last one (`AddSafe`, `AbortedAdd`).
* `evbuffer_expand_singlechain`: the last test before the branch that would resize a chain is the wrong way
  round, so that only requests near `SSIZE_MAX` and above it get there. Their allocation is refused, or the
  sum of request and data wraps to a small size, and then the assertion at the end trips, unless the copy
  before it has already gone past the new chain (`ResizeWraps`, `AbortedExpand`). A negative size of
  `evbuffer_reserve_space` is such a request (`AbortedReserve`).
* `evbuffer_commit_space` with one vector in the last chain advances `last_with_datap` over non-empty
  chains only and so leaves it stale when the last chain is two or more behind it (`StaleAfterCommit`).
  A reservation of one vector can be refused at commit (`RefusedCommit`).
* `evbuffer_remove_buffer` leaves the source's `last_with_datap` stale when all chains before the last one
  with data are empty and all bytes come from that one (`SkipsToLast`, `StaleAfterRemove`). When empty
  chains move along with data, that of the destination can go stale, or its inner `evbuffer_add` can
  trip the assertion (`DstStaysExact`, `CopySafe`, `StaleDestination`). It ignores that `evbuffer_add` may
  fail, and then the bytes are gone (`moved` is less than what left the source).
* `evbuffer_prepend` leaves part of its data behind when the second allocation fails, and miscounts
  `n_add_for_cb` on its new-chain path.
* A token bucket whose limit is above its maximum is refilled by wrapped arithmetic; `RefillLimit` says
  exactly when the result is still right. With a configuration set, the limit of a single read is not
  looked at.
* A negative decrement of a group's bucket resumes the group only from a debt. A group that is suspended while
  it holds a little, but less than its smallest share, stays so however much it is given, until the next tick
  or read (`PoorStep`, `RefundStaysSuspended`).
* Tags are emitted low bits first, not in the order the comment describes. `evtag_unmarshal_header`
  has consumed the header also when it fails because the data is incomplete. It returns the length of the
  data as an int: with 2^31 bytes and more `evtag_consume` removes everything that follows the record as
  well (`ConsumeExact`, `ConsumeTooMuch`), and a length of 2^32 - 1 looks like an error.
* Decoding an integer behind an offset tests the pointer from `evbuffer_pullup` after adding the offset, so
  that refused memory is not noticed.
* `MD5::digest` overwrites the buffer when 56 or more bytes are in it, and `_finished` never survives,
  because finishing updates: a second `digest()` then hashes something else (`AfterDigest`).
* `isLegalUTF8` does not test the lower bound of the second byte after 0xED and 0xF4, so some sequences
  that are not UTF-8 are converted (`Slips`, `SlipExample`). No replacement character is ever output.
* The chunk decoder stops at the last size line and does not wait for the trailer; a size line without
  digits ends the body. A size line whose value is negative as an int takes whatever has arrived as data:
  what is received then depends on how the stream is cut into reads (`CutsMatter`, `TornExample`), and
  after some such lines the loop is never left (`EndlessExample`).
* `LinearUpscale2DArray` asserts factors up to 128, but its tables have room for factors up to 127: with
  128 the last ratio is written behind the table (`Ratios`).
* `ReadPosition64` is wrong for every negative y (`PositionRoundTrip`). `ClearAll` passes the arguments
  of `memset` in the wrong order, so that it clears nothing but the cursors.

## Model

| member | source | states |
|---|---|---|
| Evbuffers.Evbuffer.constructor | ThirdParty/libevent/evbuffer-internal.h:171-214 | a new buffer is valid and tidy: no chains, last_with_datap is the link from the buffer itself, total_len 0 |
| Evbuffers.ChainNew | ThirdParty/libevent/buffer.c:156-193 | fails exactly when the request is over the maximum or memory is refused; else an empty, unlinked chain whose size is the next power-of-two multiple of the minimum, less the header |
| Evbuffers.Chain.WorthAligning | ThirdParty/libevent/buffer.c:1907-1914 | a chain is realigned only if that makes enough room, less than half of it is in use, and at most 2048 bytes move |
| Evbuffers.Doubled | ThirdParty/libevent/buffer.c:167-176 | the allocated size covers the request and is below twice the request unless it is the minimum |
| Evbuffers.Evbuffer.FreeTrailing | ThirdParty/libevent/buffer.c:289-305 | cuts the list at the first empty chain from last_with_datap on, all that is cut being empty, and returns the link that ends the list |
| Evbuffers.Evbuffer.ChainInsert | ThirdParty/libevent/buffer.c:307-326 | the new chain replaces the empty chains behind the data; contents grow by its data, total_len and last follow, last_with_datap moves to it exactly if it holds data |
| Evbuffers.Evbuffer.AdvanceLastWithData | ThirdParty/libevent/buffer.c:702-716 | last_with_datap moves over non-empty chains only and stops before the first empty one; the count is the number of steps |
| Evbuffers.Evbuffer.FillLast | ThirdParty/libevent/buffer.c:1747-1754 | bytes written behind the data of the last chain are appended to the contents |
| EvbufferWrite.Add | ThirdParty/libevent/buffer.c:1717-1806 | for every well-formed buffer: appends all of the data or changes nothing; -1 exactly on a frozen end, overflow or refused memory; aborts exactly if memory for a new chain is granted and AddSafe does not hold; n_add grows by the length; last_with_datap is exact afterwards if and only if AddKeepsExact held; tidy buffers stay tidy |
| EvbufferWrite.TidyAdd | ThirdParty/libevent/buffer.c:1735-1777 | on a buffer without empty trailing chains evbuffer_add neither trips an assertion nor leaves last_with_datap behind |
| EvbufferWrite.SpillSafe | ThirdParty/libevent/buffer.c:289-305 | what evbuffer_chain_insert frees after a spill holds no data if and only if no data lies behind an empty chain, and no empty chain before the last when that is written into |
| EvbufferWrite.ValidAdd | ThirdParty/libevent/buffer.c:1735-1804 | on a valid buffer the assertion can trip only with two empty chains behind the data, or one and no data at all |
| EvbufferWrite.AddSpill | ThirdParty/libevent/buffer.c:1775-1804 | fills the last chain and hangs a new one behind it, or trips the assertion |
| Evbuffers.Evbuffer.TrailingEmpty | ThirdParty/libevent/buffer.c:265-301 | evaluates the assertion that all that is about to be freed is empty |
| EvbufferWrite.ExactGrowLast | ThirdParty/libevent/buffer.c:1735-1754 | data written into the last chain leaves last_with_datap exact if and only if it pointed there already, or was exact and nothing was written |
| EvbufferWrite.Prepend | ThirdParty/libevent/buffer.c:1810-1891 | puts the data in front, whichever branch; a refused second allocation leaves exactly the tail of the data that fitted; n_add on the new-chain path counts only what the old first chain took |
| EvbufferWrite.PrependSpill | ThirdParty/libevent/buffer.c:1854-1885 | the part of the data that fits goes in front of the first chain, the rest into a new first chain |
| EvbufferRead.Drain | ThirdParty/libevent/buffer.c:1090-1156 | drops exactly the first min(len, total) bytes and adds that to n_del; -1 and no change on a frozen start of a non-empty buffer; invariant and tidiness kept |
| EvbufferRead.DrainSome | ThirdParty/libevent/buffer.c:1110-1150 | a partial drain frees whole chains, keeps the chain that last_with_datap needs, and trims the first remaining one |
| EvbufferRead.Copyout | ThirdParty/libevent/buffer.c:1173-1177 | the first min(len, total) bytes, nothing changed |
| EvbufferRead.CopyoutFrom | ThirdParty/libevent/buffer.c:1179-1244 | the bytes from a set position on, across chains, as many as there are; -1 on overflow or a frozen start |
| EvbufferRead.Remove | ThirdParty/libevent/buffer.c:1159-1171 | the bytes removed followed by the new contents are the old contents |
| EvbufferPullup.Pullup | ThirdParty/libevent/buffer.c:1339-1449 | contents unchanged and on success the first n bytes lie in the first chain, by whichever of the branches; fails exactly on 0, more than there is, or refused memory, which is not needed if the first chain can hold them |
| EvbufferPullup.PulledExact | ThirdParty/libevent/buffer.c:1388-1442 | after the chains were merged last_with_datap is again the last chain with data, also when the chain it pointed to was swallowed |
| EvbufferPullup.PulledFlat | ThirdParty/libevent/buffer.c:1388-1442 | the merged chain followed by the remaining ones spells the same bytes |
| EvbufferPullup.Peek | ThirdParty/libevent/buffer.c:1339-1449 | what a reader sees through the returned pointer is the beginning of the contents |
| EvbufferMove.AddBuffer | ThirdParty/libevent/buffer.c:955-997 | the contents of the source go behind those of the destination and the source is empty; the two own disjoint memory; n_add and n_del change by the length; -1 exactly on a frozen end |
| EvbufferMove.PrependBuffer | ThirdParty/libevent/buffer.c:1044-1088 | the contents of the source go in front; same conservation |
| EvbufferMove.CopyChain | ThirdParty/libevent/buffer.c:868-876 | an empty destination takes over list, pointers and ownership |
| EvbufferMove.AppendChain | ThirdParty/libevent/buffer.c:878-895 | the second list is hung behind the first; last_with_datap is that of the second list, shifted |
| EvbufferMove.PrependChain | ThirdParty/libevent/buffer.c:937-953 | the second list is linked in front; last_with_datap stays with the data |
| EvbufferTransfer.RemoveBuffer | ThirdParty/libevent/buffer.c:1249-1337 | for every pair of valid buffers: the first min(n, total) bytes leave the source, in order, for the destination; memory stays disjoint; both counters change by what moved; when it aborts, how many bytes arrive, and when each last_with_datap is exact afterwards are all stated exactly |
| EvbufferTransfer.RemoveWhole | ThirdParty/libevent/buffer.c:1283-1326 | whole chains, empty ones among them, change owner, the rest is copied; aborts, and keeps last_with_datap of the destination exact, just under the stated conditions |
| EvbufferTransfer.Attach | ThirdParty/libevent/buffer.c:1283-1308 | the chains hang behind the data of the destination, whose last_with_datap steps over non-empty ones only |
| EvbufferTransfer.AdvancedOver | ThirdParty/libevent/buffer.c:1302-1313 | the position reached is exact if and only if no data comes behind an empty chain that came along, and likewise when another chain can follow |
| EvbufferTransfer.OnlyWhole | ThirdParty/libevent/buffer.c:1283-1331 | when only whole chains move nothing can fail, and the destination stays valid if and only if no data comes behind an empty chain |
| EvbufferTransfer.ReachingAll | ThirdParty/libevent/buffer.c:1313-1318 | with memory and room for the length everything arrives |
| EvbufferTransfer.Detach | ThirdParty/libevent/buffer.c:1287-1301 | the first chains become a list of their own that shares nothing with what stays |
| EvbufferTransfer.TidyTransfer | ThirdParty/libevent/buffer.c:1249-1337 | between tidy buffers no move goes wrong |
| EvbufferExpand.ExpandSinglechain | ThirdParty/libevent/buffer.c:1918-2026 | for every size_t request: contents and counters unchanged; on success a chain at or right behind last_with_datap has room for the request; a chain that has it already is used as it is; the branch that resizes a chain never succeeds: it changes nothing, or, exactly if the sum of the lengths wraps and that much memory is granted, does not get past the assertion |
| EvbufferExpand.WorthResizing | ThirdParty/libevent/buffer.c:1976-1985 | a chain is resized only for a request that together with its data is beyond any chain, if an eighth is free and at most 4096 bytes have to be copied |
| EvbufferExpand.ResizeChain | ThirdParty/libevent/buffer.c:1986-2013 | the resize is refused, or aborts exactly if its size wraps and is granted |
| EvbufferExpand.Expand | ThirdParty/libevent/buffer.c:2141-2150 | 0 only when some chain has the room; contents unchanged |
| EvbufferExpand.ExpandFast | ThirdParty/libevent/buffer.c:2031-2139 | contents unchanged; on success at most n chains from last_with_datap on have the room, and all of them but the first are empty; with fewer than n chains there none is freed and at most one added; the list otherwise changes only in its empty chains |
| EvbufferExpand.ExpandNuke | ThirdParty/libevent/buffer.c:2092-2137 | all empty chains are replaced by one that has the missing room; if memory is refused they are gone and the buffer is still valid |
| EvbufferExpand.ReplaceEmpties | ThirdParty/libevent/buffer.c:2097-2133 | the empty chains behind the data, or all chains of an empty buffer, give way to the new one |
| EvbufferSpace.ReadSetupVecs | ThirdParty/libevent/buffer.c:2205-2239 | after evbuffer_expand_fast_ the vectors are all the room of the first chains with room, at most n of them, and at least the size asked for |
| EvbufferSpace.ReserveSpace | ThirdParty/libevent/buffer.c:669-699 | contents unchanged; the vectors lie right behind the data of consecutive chains and have room for the size; a negative size is never granted, and aborts exactly where evbuffer_expand_singlechain does |
| EvbufferSpace.CommitSpace | ThirdParty/libevent/buffer.c:718-786 | succeeds exactly when every vector is where the space is and fits; then contents grow by exactly the bytes found in the vectors, each behind its chain; last_with_datap is exact unless a single vector was committed into a last chain two or more behind it |
| EvbufferSpace.CommitReserved | ThirdParty/libevent/buffer.c:669-786 | any used part of a reservation can be committed, except that a one-vector reservation is refused exactly when its chain is neither the first with space nor the last |
| EvbufferSpace.CommitFlat | ThirdParty/libevent/buffer.c:760-772 | adjusting the chains one by one appends the concatenation of the committed prefixes |
| EvbufferSpace.CommitExact | ThirdParty/libevent/buffer.c:760-772 | last_with_datap ends at the last chain a byte was committed to |
| EvbufferSpace.WriteDirect | ThirdParty/libevent/buffer.c:669-786 | reserve, write, commit appends exactly the bytes written, in a valid buffer, or changes nothing |
| EvbufferSpace.FitsFrom | ThirdParty/libevent/buffer.c:2222-2236 | from the first chain with space on, the counted chains still have the whole room |
| EvbufferStale.StaleAfterAdd | ThirdParty/libevent/buffer.c:1735-1754 | from a new buffer: reserve, commit, reserve, add leaves last_with_datap behind the data |
| EvbufferStale.AbortedAdd | ThirdParty/libevent/buffer.c:289-305 | from a new buffer: with two empty chains reserved, evbuffer_add trips the assertion |
| EvbufferStale.StaleAfterCommit | ThirdParty/libevent/buffer.c:734-745 | from a new buffer: committing the last vector alone leaves last_with_datap behind |
| EvbufferStale.RefusedCommit | ThirdParty/libevent/buffer.c:748-765 | from a new buffer: a vector that was reserved is refused |
| EvbufferStale.AbortedExpand | ThirdParty/libevent/buffer.c:1986-2026 | from a new buffer with one byte: evbuffer_expand with the largest size_t does not return |
| EvbufferStale.AbortedReserve | ThirdParty/libevent/buffer.c:669-699 | from a new buffer with one byte: evbuffer_reserve_space with one vector and size -1 does not return |
| EvbufferStale.StaleAfterRemove | ThirdParty/libevent/buffer.c:1283-1301 | from new buffers: removing from a source that begins with an empty chain resets its last_with_datap to that chain |
| EvbufferStale.StaleDestination | ThirdParty/libevent/buffer.c:1287-1305 | from new buffers: an empty chain that moves along leaves last_with_datap of the destination before it |
| EvbufferRun.Run | ThirdParty/libevent/evbuffer-internal.h:86-101 | over any run of adding, prepending, draining, removing, pulling up, freezing, making room, writing directly and moving between any number of buffers: up to the first operation that leaves a buffer stale or trips an assertion every state is valid, no memory is shared, and what the buffers hold follows the same operations on byte strings; without making room there is no such operation, and every state is tidy |
| EvbufferRun.Do | ThirdParty/libevent/evbuffer-internal.h:86-101 | an operation leaves all buffers valid if and only if the condition for its kind holds in the state before |
| EvbufferRun.OneOutcome | ThirdParty/libevent/evbuffer-internal.h:86-101 | with memory and sizes that do not overflow, a run is exactly the run on byte strings |
| EvbufferRun.MovesConserve | ThirdParty/libevent/buffer.c:955-1337 | moving bytes between buffers neither makes nor loses any |
| EvbufferRun.OnlyTwo | ThirdParty/libevent/buffer.c:869-895 | what an operation does not touch keeps its contents and its invariant |
| EvbufferSearch.PtrSet | ThirdParty/libevent/buffer.c:2601-2652 | a set or advanced position denotes the flat offset, in the chain that holds that byte or past the last; it fails exactly past the end |
| EvbufferSearch.PtrSubtract | ThirdParty/libevent/buffer.c:2581-2599 | the position so many bytes earlier; fails exactly before the start |
| EvbufferSearch.PtrMemcmp | ThirdParty/libevent/buffer.c:2657-2691 | the comparison of the flat bytes, across chains; -1 past the end |
| EvbufferSearch.MemcmpConcat | ThirdParty/libevent/buffer.c:2674-2688 | comparing piece by piece is comparing the whole |
| EvbufferSearch.SearchRange | ThirdParty/libevent/buffer.c:2699-2761 | the first occurrence at or after the start that ends by the end, also spanning chains; not found exactly if there is none; an empty string is found at the start |
| EvbufferLine.FindFrom | ThirdParty/libevent/buffer.c:1461-1480 | the first stop character at or after the position, or none |
| EvbufferLine.FindEolChar | ThirdParty/libevent/buffer.c:1483-1508 | searching in chunks finds the first CR or LF |
| EvbufferLine.Strspn | ThirdParty/libevent/buffer.c:1532-1569 | how many bytes of the set follow, across chains |
| EvbufferLine.SearchEol | ThirdParty/libevent/buffer.c:1584-1672 | position and length of the first line end in each of the five styles, or none |
| EvbufferLine.Readln | ThirdParty/libevent/buffer.c:1674-1711 | the old contents are line, terminator and new contents, the line free of that terminator; null exactly on a frozen start, no line end, or when memory for the line and a zero byte is refused, and then nothing changes |
| EvbufferLine.LineUnique | ThirdParty/libevent/buffer.c:1674-1711 | there is only one way to split off a line |
| TagWire.TagRoundTrip | ThirdParty/libevent/event_tagging.c:173-242 | every 32-bit tag decodes to itself whatever follows, reading only its own bytes, at most 5 |
| TagWire.TagFits | ThirdParty/libevent/event_tagging.c:213-229 | an accepted tag has at most 5 bytes and fits into 32 bits |
| TagWire.IntRoundTrip | ThirdParty/libevent/event_tagging.c:117-149 | an integer of so many nibbles decodes to itself whatever follows |
| TagWire.RoundTrip32 | ThirdParty/libevent/event_tagging.c:315-367 | every 32-bit integer round trips in at most 5 bytes |
| TagWire.RoundTrip64 | ThirdParty/libevent/event_tagging.c:315-373 | every 64-bit integer round trips in at most 9 bytes |
| TagWire.HeadRoundTrip | ThirdParty/libevent/event_tagging.c:256-263 | the header of a record followed by anything gives back tag and length, and then come the data |
| TagWire.HeadBound | ThirdParty/libevent/event_tagging.c:315-373 | a header that is accepted has a 32-bit tag and length, and at most 10 bytes |
| TagWire.StreamRoundTrip | ThirdParty/libevent/event_tagging.c:256-263 | a concatenation of records parses back to the same list |
| EventTagging.EncodeInt | ThirdParty/libevent/event_tagging.c:117-149 | the array holds exactly the encoding of the number |
| EventTagging.EncodeTag | ThirdParty/libevent/event_tagging.c:173-194 | appends the tag in groups of seven bits, low bits first |
| EventTagging.DecodeTagInternal | ThirdParty/libevent/event_tagging.c:196-242 | agrees with the wire format on every input; drains exactly the tag, or nothing; fails otherwise only on refused memory |
| EventTagging.DecodeIntInternal | ThirdParty/libevent/event_tagging.c:315-373 | agrees with the wire format on every input and offset, and changes nothing |
| EventTagging.DecodeIntFrom | ThirdParty/libevent/event_tagging.c:375-393 | an integer is taken off, or nothing is |
| EventTagging.Marshal | ThirdParty/libevent/event_tagging.c:256-263 | appends one record |
| EventTagging.MarshalInt | ThirdParty/libevent/event_tagging.c:276-297 | appends a record whose data are an encoded integer |
| EventTagging.MarshalTimeval | ThirdParty/libevent/event_tagging.c:306-313 | appends a record of the two fields, each cut to 32 bits |
| EventTagging.PeekLength | ThirdParty/libevent/event_tagging.c:401-417 | header plus data length of the first record, modulo 2^32; nothing changes |
| EventTagging.PayloadLength | ThirdParty/libevent/event_tagging.c:419-433 | data length of the first record; nothing changes |
| EventTagging.UnmarshalHeader | ThirdParty/libevent/event_tagging.c:437-451 | takes the header off and returns the tag, and the length as an int; the header is gone also when the data is incomplete |
| EventTagging.Consume | ThirdParty/libevent/event_tagging.c:453-462 | for every buffer: removes the header and what the length means as an int |
| EventTagging.ConsumeExact | ThirdParty/libevent/event_tagging.c:453-462 | exactly the record is removed if and only if its length is below 2^31, or nothing follows it and the length is not 2^32 - 1 |
| EventTagging.ConsumeTooMuch | ThirdParty/libevent/event_tagging.c:453-462 | a record of 2^31 bytes is removed together with what follows it |
| EventTagging.PeekIsConsumed | ThirdParty/libevent/event_tagging.c:401-417 | the peeked length of a complete record is what is consumed, in exactly these cases |
| EventTagging.Unmarshal | ThirdParty/libevent/event_tagging.c:466-480 | moves the data of exactly one record below 2^31 bytes to the destination; larger ones fail with the header gone |
| EventTagging.UnmarshalInt | ThirdParty/libevent/event_tagging.c:484-535 | succeeds if and only if tag, length and integer are in place, and then takes the record off |
| EventTagging.IntOfRecord | ThirdParty/libevent/event_tagging.c:276-297 | what was marshalled as an integer with this tag is in place, and what follows stays |
| EventTagging.UnmarshalFixed | ThirdParty/libevent/event_tagging.c:538-555 | exactly a record with this tag and length, below 2^31, is returned; anything else fails |
| EventTagging.UnmarshalTimeval | ThirdParty/libevent/event_tagging.c:579-605 | succeeds if and only if tag, length and both fields are in place; what is left is what evtag_consume leaves |
| EventTagging.TimeOfRecord | ThirdParty/libevent/event_tagging.c:306-313 | a marshalled time with fields below 2^32 is in place, and what follows stays |
| TokenBuckets.CfgNew | ThirdParty/libevent/bufferevent_ratelim.c:142-173 | a configuration exists exactly if rates are positive, at most the bursts, and bursts at most the maximum, and then holds these numbers |
| TokenBuckets.RefillLimit | ThirdParty/libevent/bufferevent_ratelim.c:98-101 | the 64-bit arithmetic gives min(maximum, limit + ticks * rate) if the limit is at most the maximum, and otherwise if and only if the refill wraps all the way round |
| TokenBuckets.Bucket.Init | ThirdParty/libevent/bufferevent_ratelim.c:49-71 | a new bucket holds one tick's worth; a new configuration only clips downwards |
| TokenBuckets.Bucket.Update | ThirdParty/libevent/bufferevent_ratelim.c:73-111 | refills by the wrapped tick difference, from any limit; nothing happens in the same tick or when the clock went back |
| TokenBuckets.SplitRefill | ThirdParty/libevent/bufferevent_ratelim.c:73-111 | any sequence of updates adds up to one refill for all ticks, across tick counter wraparound |
| TokenBuckets.SplitIndependent | ThirdParty/libevent/bufferevent_ratelim.c:73-111 | how elapsed ticks are split into updates does not matter |
| TokenBuckets.WindowBound | ThirdParty/libevent/bufferevent_ratelim.c:197-258 | in any window of any run, reads that keep to the reported limit total at most what the bucket held plus rate times ticks, hence at most burst plus rate times ticks |
| TokenBuckets.EmptyBucket | ThirdParty/libevent/bufferevent_ratelim.c:197-258 | from an exhausted bucket at most rate times ticks are read |
| Bufferevents.Bufferevent.Suspend | ThirdParty/libevent/bufferevent.c:67-77 | the backend of a direction is off from the first reason on |
| Bufferevents.Bufferevent.Unsuspend | ThirdParty/libevent/bufferevent.c:79-89 | the backend is on again exactly when no reason remains and the direction is enabled |
| Bufferevents.Bufferevent.Enable | ThirdParty/libevent/bufferevent.c:460-481 | enabling keeps suspended directions off in the backend |
| Bufferevents.Bufferevent.Disable | ThirdParty/libevent/bufferevent.c:551-564 | disabling turns the backend off |
| Bufferevents.Bufferevent.GetMax | ThirdParty/libevent/bufferevent_ratelim.c:197-258 | the refilled limit, never negative; a direction that nothing suspends may always move something |
| Bufferevents.Bufferevent.Decrement | ThirdParty/libevent/bufferevent_ratelim.c:272-293 | the direction is suspended for bandwidth exactly if its limit is exhausted; the invariant is kept |
| Bufferevents.Bufferevent.DecrementLimit | ThirdParty/libevent/bufferevent_ratelim.c:971-996 | keeps the invariant, looking only at how the sign of the limit changes; a direction stays suspended for bandwidth only if it is exhausted, or had a limit left and waits for the timer |
| Bufferevents.Bufferevent.RefillCallback | ThirdParty/libevent/bufferevent_ratelim.c:393-439 | resumes exactly the directions whose refilled limit is positive; the timer is pending again exactly if one stays suspended |
| Bufferevents.Bufferevent.SetRateLimit | ThirdParty/libevent/bufferevent_ratelim.c:559-636 | the first configuration gives one tick's worth in either direction, dated to this tick, and suspends nothing; another one only clips the limits to its maxima and leaves the date; exactly the exhausted directions are then suspended; the same one again changes nothing; without one nothing is suspended for bandwidth and no timer is pending |
| Bufferevents.Run | ThirdParty/libevent/bufferevent_ratelim.c:393-439 | in every state any run of operations leads to: exhausted implies suspended, the timer is pending if and only if something is suspended for bandwidth, backend on if and only if enabled and not suspended |
| RateLimitGroups.StepInv | ThirdParty/libevent/bufferevent_ratelim.c:349-371 | every step of every thread, with any try-lock failing, keeps the protocol invariant |
| RateLimitGroups.NoLostWakeup | ThirdParty/libevent/bufferevent_ratelim.c:487-504 | in every reachable state outside a loop, a bufferevent suspended for the group and not just leaving is in the group, and the group is suspended or has a wakeup pending |
| RateLimitGroups.ExhaustedIsSuspended | ThirdParty/libevent/bufferevent_ratelim.c:272-308 | in every reachable state an exhausted group is suspended |
| RateLimitGroups.Ledger | ThirdParty/libevent/bufferevent_ratelim.c:294-306 | over any run, the limit of the group is what it was, less all bytes that were read or charged directly, plus what the ticks brought: at most the rate for each, and nothing without a tick; the tick of the last refill moves on by those ticks |
| RateLimitGroups.SpentIsSuspended | ThirdParty/libevent/bufferevent_ratelim.c:294-306 | a new group's limit is one tick's worth less what was charged plus what the ticks brought; once that is spent the group is suspended |
| RateLimitGroups.SuspendedAfter | ThirdParty/libevent/bufferevent_ratelim.c:294-306 | when each step suspends or resumes the group, and that every loop goes over all members |
| RateLimitGroups.PoorStep | ThirdParty/libevent/bufferevent_ratelim.c:1027-1047 | a step leaves a group suspended that holds its smallest share if and only if it gives bytes back to a suspended group that is not in debt |
| RateLimitGroups.SuspendedIsPoor | ThirdParty/libevent/bufferevent_ratelim.c:528-549 | in every reachable state, if nothing was given back, a suspended group holds less than its smallest share |
| RateLimitGroups.RefundStaysSuspended | ThirdParty/libevent/bufferevent_ratelim.c:1027-1047 | a reachable group that is suspended although it holds all it can |
| RateLimitGroups.SuspendedStopsAll | ThirdParty/libevent/bufferevent_ratelim.c:349-371 | in every reachable state outside a loop, each member of a suspended group is suspended, or about to be as it joins, or could not be locked and has not asked for its limit since |
| RateLimitGroups.Joined | ThirdParty/libevent/bufferevent_ratelim.c:735-779 | joining adds the bufferevent and suspends it exactly if the group is suspended |
| RateLimitGroups.JoinThenLeave | ThirdParty/libevent/bufferevent_ratelim.c:735-810 | joining and leaving again restores the group |
| RateLimitGroups.QueriedLimit | ThirdParty/libevent/bufferevent_ratelim.c:228-257 | a suspended group gives each member 0 and marks it; otherwise at least the smallest share, and together no more than the bucket unless that is below the smallest shares |
| RateLimitGroups.QueriedAll | ThirdParty/libevent/bufferevent_ratelim.c:244-250 | a member held back by the group gets at least its whole part of the bucket |
| RateLimitGroups.RotateOnce | ThirdParty/libevent/bufferevent_ratelim.c:470-485 | the walk from a random start visits every member exactly once |
| RateLimitGroups.WalkInRandomOrder | ThirdParty/libevent/bufferevent_ratelim.c:445-485 | the two loops of the macro visit the members in that order |
| RateLimitGroups.MinShare | ThirdParty/libevent/bufferevent_ratelim.c:703-722 | the smallest share is at most one tick's rate |
| RateLimitGroups.RefillsShare | ThirdParty/libevent/bufferevent_ratelim.c:528-549 | after enough ticks any debt is paid and the smallest share is there |
| RateLimitGroups.TickWakesAll | ThirdParty/libevent/bufferevent_ratelim.c:528-549 | a tick with the share there or a wakeup pending, in which no bufferevent is locked, leaves nobody suspended |
| BuffereventPair.NewPair | ThirdParty/libevent/bufferevent_pair.c:114-150 | two ends, nothing written, input ends and output starts frozen |
| BuffereventPair.MoveBytes | ThirdParty/libevent/bufferevent_pair.c:152-192 | exactly the bytes in front of the waiting ones go over, in order: up to the high watermark, or all without one or when a flush finds it reached |
| BuffereventPair.Transfer | ThirdParty/libevent/bufferevent_pair.c:152-192 | bytes go over in order, and the four buffers stay apart, valid and frozen |
| BuffereventPair.WriteTo | ThirdParty/libevent/bufferevent_pair.c:204-222 | what is written is appended to what the partner will read; it is handed over at once, up to the mark, if the partner reads, and not at all if not |
| BuffereventPair.ReadFrom | ThirdParty/libevent/bufferevent_pair.c:152-192 | the next bytes in order; reading below the mark lets in what waits, up to the mark again |
| BuffereventPair.PairEnable | ThirdParty/libevent/bufferevent_pair.c:224-250 | starting to read or write hands over what waits |
| BuffereventPair.SetWatermark | ThirdParty/libevent/bufferevent.c:570-616 | reading is suspended for the mark exactly if it is reached; raising or removing it lets in what waits |
| BuffereventPair.WatermarkCallback | ThirdParty/libevent/bufferevent.c:118-132 | suspends reading exactly if the mark is reached, and otherwise lets in what waits |
| BuffereventPair.NothingWaits | ThirdParty/libevent/bufferevent_pair.c:194-202 | in a good state bytes wait in front of an end that reads only while its mark is reached |
| BuffereventPair.Flush | ThirdParty/libevent/bufferevent_pair.c:304-330 | a flush hands over what waits whether or not the other end reads, but also not across a mark that is not reached yet |
| BuffereventPair.Run | ThirdParty/libevent/bufferevent_pair.c:152-250 | over any run at both ends: what was read at one end is a prefix of what was written at the other, the rest waits in order; reading is suspended for the mark exactly while it is reached; between ends that write and read bytes wait only then; nothing ever comes to an end that never reads, unless flushed |
| ByteBuffers.ByteBuffer.Write | Src/Common/ByteBuffer.cpp:207-248 | appends, across the wrap, exactly if there is room, and otherwise changes nothing |
| ByteBuffers.ByteBuffer.CopyIn | Src/Common/ByteBuffer.cpp:222-243 | the two copies fill exactly the free places in ring order |
| ByteBuffers.ByteBuffer.FreeSpace | Src/Common/ByteBuffer.cpp:254-269 | capacity minus everything not committed |
| ByteBuffers.ByteBuffer.UsedSpace | Src/Common/ByteBuffer.cpp:275-282 | free plus used is the capacity |
| ByteBuffers.ByteBuffer.ReadableSpace | Src/Common/ByteBuffer.cpp:288-301 | the number of unread bytes |
| ByteBuffers.ByteBuffer.Read | Src/Common/ByteBuffer.cpp:845-936 | returns the next bytes across the wrap and moves them to the read part, exactly if there are enough |
| ByteBuffers.ByteBuffer.SkipRead | Src/Common/ByteBuffer.cpp:960-970 | as reading, without the bytes |
| ByteBuffers.ByteBuffer.ReadAll | Src/Common/ByteBuffer.cpp:976-984 | all unread bytes |
| ByteBuffers.ByteBuffer.CommitRead | Src/Common/ByteBuffer.cpp:1012-1017 | forgets what was read and keeps the unread bytes |
| ByteBuffers.ByteBuffer.ResetRead | Src/Common/ByteBuffer.cpp:1023-1028 | restores what was read since the last commit |
| ByteBuffers.ByteBuffer.ReadAgain | Src/Common/ByteBuffer.cpp:1034-1050 | exactly what was read since the last commit |
| ByteBuffers.ReadToByteBuffer | Src/Common/ByteBuffer.cpp:987-1006 | moves exactly that many bytes, or none, conserving all of them |
| ByteBuffers.VarRoundTrip | Src/Common/ByteBuffer.cpp:502-540 | every number decodes to itself whatever follows |
| ByteBuffers.VarLengths | Src/Common/ByteBuffer.cpp:753-791 | at most 5 bytes for 32 bits and 10 for 64 |
| ByteBuffers.WriteVarInt | Src/Common/ByteBuffer.cpp:753-791 | appends exactly the encoding, or nothing |
| ByteBuffers.ReadVarInt | Src/Common/ByteBuffer.cpp:502-540 | the number modulo the width at any place of the ring; an incomplete one is consumed |
| ByteBuffers.PositionRoundTrip | Src/Common/ByteBuffer.cpp:585-604 | a position comes back if and only if x and z fit into 26 signed bits and y into 11 unsigned bits |
| ByteBuffers.NegativeY | Src/Common/ByteBuffer.cpp:585-604 | a negative y comes back larger by 2048 |
| ByteBuffers.WritePosition64 | Src/Common/ByteBuffer.cpp:830-839 | appends the eight bytes, or nothing |
| ByteBuffers.ReadPosition64 | Src/Common/ByteBuffer.cpp:585-604 | a position in range that was written comes back at any place of the ring |
| Md5Block.Transform | Src/Server/md5.cpp:219-301 | the 64 unrolled steps are those of section 3.4 of RFC 1321, given there by tables |
| Md5Block.Round2 | Src/Server/md5.cpp:243-259 | one unrolled round follows the tables |
| Md5Block.Chosen | Src/Server/md5.cpp:27 | F is y where x is one and z elsewhere, in each bit |
| Md5Block.ChosenByLast | Src/Server/md5.cpp:28 | G is x where z is one and y elsewhere |
| Md5Block.Parity | Src/Server/md5.cpp:29 | H is the parity of the three |
| Md5Block.Complemented | Src/Server/md5.cpp:30 | I is the complement of y where x is one or z is zero, and y elsewhere |
| Md5Block.Rotates | Src/Server/md5.cpp:34 | each of the sixteen rotations is one to the left |
| Md5Block.Mixes | Src/Server/md5.cpp:39-43 | the four terms are added modulo 2^32, rotated, and added to b |
| Md5Stream.CountAdd | Src/Server/md5.cpp:158-162 | the two-word bit count with carry is the length in bits modulo 2^64 |
| Md5Stream.CountIndex | Src/Server/md5.cpp:155 | the low word gives the number of buffered bytes |
| Md5Stream.Absorbed | Src/Server/md5.cpp:164-176 | filling the buffer and running over whole blocks is processing the longer message |
| Md5Stream.Md5.Update | Src/Server/md5.cpp:149-182 | state, count and buffer belong to the message so far with the input appended |
| Md5Stream.Md5.Final | Src/Server/md5.cpp:188-216 | the digest is that of RFC 1321; afterwards the stream continues AfterDigest of the message |
| Md5Stream.Md5.GetDigest | Src/Server/md5.cpp:94-101 | every call computes the digest of what the stream then stands for |
| Md5Stream.DigestKeeps | Src/Server/md5.cpp:203-215 | a digest leaves the stream unchanged if and only if at most 55 bytes are buffered, or these happen to be what it leaves there |
| Md5Stream.DigestSpoils | Src/Server/md5.cpp:203-215 | 56 to 63 bytes that do not start with zero are always lost |
| Md5Stream.PaddingIs | Src/Server/md5.cpp:196-208 | a one bit, the fewest zeros that fill a block, and the length in bits modulo 2^64, low word first |
| Md5Stream.WordRoundTrip | Src/Server/md5.cpp:303-327 | words are written low byte first and read back |
| Md5Stream.OutputRoundTrip | Src/Server/md5.cpp:210-211 | the digest is the four registers in order |
| Md5Stream.InitialBytes | Src/Server/md5.cpp:110-114 | the registers start with the bytes 01 23 45 to 32 10 of section 3.3 of RFC 1321 |
| Md5Stream.DigestOfPieces | Src/Server/md5.cpp:149-216 | for any split of a message into updates the digest is that of RFC 1321 |
| HttpChunks.DownloadHeader | ThirdParty/httpclient/http_client.cpp:285-310 | header and beginning of the body are split at the first empty line, however the reads are cut |
| HttpChunks.DownloadChunkedBody | ThirdParty/httpclient/http_client.cpp:400-488 | for every stream and every cut into reads, negative sizes included, the loop ends as Receive says, or never |
| HttpChunks.GetResponse | ThirdParty/httpclient/http_client.cpp:265-488 | the header is split off, and the outcome is one that some cut of the rest leads to; it is that of the whole rest wherever Independent holds; a header and an encoded body, cut into reads in any way, give the header and the concatenated chunk data |
| HttpChunks.ResponseParts | ThirdParty/httpclient/http_client.cpp:285-310 | a header followed by an encoded body is split after the header, and the body does not depend on cuts |
| HttpChunks.CutsMatter | ThirdParty/httpclient/http_client.cpp:400-488 | the outcome is the same for every cut into reads if and only if the stream does not decode completely, or no line with a negative size is reached that takes off less than there is |
| HttpChunks.OnePiece | ThirdParty/httpclient/http_client.cpp:400-504 | however the stream is cut, the decoder ends in the same way, and with the same data unless the stream is torn |
| HttpChunks.TornDiffers | ThirdParty/httpclient/http_client.cpp:432-447 | for a torn stream that decodes completely there is a cut of which less data comes |
| HttpChunks.TornExample | ThirdParty/httpclient/http_client.cpp:432-447 | ffffffff, a line end, X0 and a line end give X0 and the line end in one read, and X when cut behind the X |
| HttpChunks.EndlessExample | ThirdParty/httpclient/http_client.cpp:432-447 | after the line fffffff4 the loop is never left |
| HttpChunks.DecodeEncoded | ThirdParty/httpclient/http_client.cpp:425-479 | chunks encoded as in section 4.1 of RFC 7230, with sizes of any HEXDIG and any extensions, decode to their data, also if the data contains line ends; nothing behind the last size line is waited for, and the stream is not torn |
| HttpChunks.ReceiveEncoded | ThirdParty/httpclient/http_client.cpp:400-488 | an encoded body, cut into reads in any way, is received as the concatenation of its chunk data |
| HttpChunks.ReceiveChunk | ThirdParty/httpclient/http_client.cpp:434-447 | what cutting off the first chunk means, whatever the sign of its size |
| HttpChunks.SizeLine | ThirdParty/httpclient/http_client.cpp:462-467 | the value of any non-empty string of HEXDIG below 2^31, in either case, with leading zeros, and with an extension, is read back |
| HttpChunks.SizeOfValue | ThirdParty/httpclient/http_client.cpp:462-467 | a larger value is converted to int |
| HttpChunks.DigitValue | ThirdParty/httpclient/http_client.cpp:466 | digits are those of 0 to 9, A to F and a to f, with their values, and nothing else |
| HttpChunks.HexOfValue | ThirdParty/httpclient/http_client.cpp:466 | every number, printed in upper or lower case, is read back |
| HttpChunks.StrtoulReads | ThirdParty/httpclient/http_client.cpp:466 | white space, a sign and 0x may come first; a value beyond 64 bits gives ULONG_MAX, and a minus sign negates in 64 bits, as section 7.22.1.4 of ISO C11 has it |
| HttpChunks.NothingToRead | ThirdParty/httpclient/http_client.cpp:466 | without digits the size is 0 |
| HttpChunks.PlainChunk | ThirdParty/httpclient/http_client.cpp:425-479 | every non-empty block has a valid chunk with its size in upper and in lower case |
| Utf8.AcceptedValue | Src/Common/StringUtils.cpp:537-585 | no surrogate and no value out of range is ever found, and the character is the one that UTF-8 encodes this way if and only if it did not slip through |
| Utf8.EncodedAccepted | Src/Common/StringUtils.cpp:485-559 | every well-formed character is accepted and decoded to itself |
| Utf8.ConvertsPrefix | Src/Common/StringUtils.cpp:524-589 | the output is the UTF-16 encoding of the longest well-formed prefix if and only if that is not followed by 0xED or 0xF4 with a second byte below 0x80 that slips through |
| Utf8.PrefixOf | Src/Common/StringUtils.cpp:524-589 | every string has a longest well-formed prefix |
| Utf8.SlipExample | Src/Common/StringUtils.cpp:498-511 | 0xED 0x41 0x80 is output as one character although it is not UTF-8 |
| Utf8.ReadCharacter | Src/Common/StringUtils.cpp:549-559 | the fall-through cases gather the character without overflow |
| Utf8.Units | Src/Common/StringUtils.cpp:561-586 | the code units in network byte order |
| Utf8.Utf16RoundTrip | Src/Common/StringUtils.cpp:561-586 | the output for a character is decoded, as in section 2.2 of RFC 2781, to that character, whatever follows |
| Utf8.Utf16Unique | Src/Common/StringUtils.cpp:561-586 | whatever is decoded as a character is one, and its output is these bytes |
| Utf8.Utf16StringRoundTrip | Src/Common/StringUtils.cpp:524-589 | the output for a string is decoded to that string |
| Utf8.Utf8ToRawBeUtf16 | Src/Common/StringUtils.cpp:524-589 | the loop outputs exactly that |
| LinearUpscale.Job.InCell | Src/Server/LinearUpscale.h:119-143 | within a cell, borders included, upscaling interpolates between the four corners, so neighbouring cells agree |
| LinearUpscale.JobOf | Src/Server/LinearUpscale.h:39-45 | every array whose size is a multiple of the steps plus one has its anchors, so that what follows holds for all of them |
| LinearUpscale.LinearUpscale2DArrayInPlace | Src/Server/LinearUpscale.h:39-76 | every cell of the array has its interpolated value and every anchor keeps its own |
| LinearUpscale.FillColumns | Src/Server/LinearUpscale.h:41-57 | the anchor columns are complete after the first pass |
| LinearUpscale.FillRows | Src/Server/LinearUpscale.h:59-75 | the second pass completes every row |
| LinearUpscale.LinearUpscale2DArray | Src/Server/LinearUpscale.h:86-146 | over real values the same array, whatever cell wrote a common border last; nothing is written with fewer than two anchors in a direction; in bounds exactly for factors below 128 |
| LinearUpscale.Ratios | Src/Server/LinearUpscale.h:108-118 | the table of ratios is complete, and overrun exactly for a factor of 128 |
| LinearUpscale.LerpForms | Src/Server/LinearUpscale.h:53 | the expression of the in-place version is the one with precomputed ratios, over real values |
| LinearUpscale.IntWithinCorners | Src/Server/LinearUpscale.h:41-75 | over whole numbers every value stays between the smallest and the largest of its four corner anchors |

## Left out

- Multicast, file-segment, reference, `sendfile`, `mmap` and pinned chains: chains here are mutable and unpinned.
- Locks and deferred callbacks of an evbuffer: its operations are atomic, and the two counters accumulate from one run of the callbacks to the next, which is not modelled.
- Overflow of `total_len`: contents longer than memory; several contracts ask for at most `SSIZE_MAX` bytes.
- EvbufferRun.Run: reading lines, searching and copying out are not among its operations; they change nothing, or only drain. It ends with the first operation that leaves a stale position: what later operations do then is stated for `evbuffer_add` alone.
- `evbuffer_read`, `evbuffer_write`, `evbuffer_peek`, `evbuffer_add_printf`, `evbuffer_add_iovec`: system calls, formatting, or loops over what is modelled.
- Pointer comparison of a vector with a chain: memory is identified by the array and the place in it.
- EvbufferExpand.ExpandSinglechain: that a request above the allocator's limit less 4096 bytes may still succeed is not stated, because no chain of such a size exists. The copy that goes past the new chain is not told apart from the assertion behind it.
- EventTagging.PeekLength: refused memory, which the program does not notice behind an offset; likewise for `PayloadLength` and `UnmarshalTimeval`, and for `Unmarshal`, which adds from the null pointer.
- `evtag_marshal_buffer`, `evtag_unmarshal_string`: easy members beside those that are modelled. Refused memory and a frozen end under the encoders, which ignore what the evbuffer returns, and encoding into a buffer in which space was reserved; decoding from a buffer with a frozen start, where nothing can be drained.
- The extra byte that `decode_tag_internal` may look at before it rejects a tag of more than five bytes.
- The clock: ticks are parameters; `ev_token_bucket_get_tick_` is not modelled. The tick length of a new configuration is not related to the ticks of the old one.
- Bufferevents.Bufferevent.Decrement: bytes may be given back only up to the burst; refunds beyond it are not modelled.
- Bufferevents.Bufferevent.DecrementLimit: the same.
- Bufferevents.Bufferevent.GetMax: the share of a group in the limit is stated by `RateLimitGroups.QueriedLimit`.
- Backend operations and timers that fail; group membership of a bufferevent inside `Bufferevents.dfy` (its suspension for the group is one more reason there).
- RateLimitGroups.QueriedLimit: several members may each use their share before any of them is charged, so nothing is stated about the bytes a group reads in a window.
- `bufferevent_rate_limit_group_set_cfg`, and the final removal of a bufferevent that is being freed.
- RateLimitGroups.StepInv: one direction, reading; writing is the same code again and shares no state but the locks.
- Timeouts, user callbacks, unlinking and freeing of a pair; suspension of writing for a pair; allocation failure while bytes are moved (they would be lost, see above).
- The callback on a pair's input during a transfer: it may suspend or resume reading, but the transfer it would start finds nothing more to move, and is not carried out again.
- `ReadVarUTF8String`, the remaining fixed-width readers and writers of `cByteBuffer`, and its thread checks.
- ByteBuffers.ReadVarInt: the shift of a number of more than 5 or 10 bytes exceeds the width, which C++ leaves undefined; here those bits are lost.
- Md5Stream.Md5.Update: an update of nearly 2^32 bytes or more, where the 32-bit loop index would wrap.
- Md5Stream.DigestOfPieces: the same.
- Hexadecimal printing of a digest, hashing of files, and the client's copy of the class.
- HttpChunks.DownloadChunkedBody: bodies of 2 GiB and more, whose lengths the program counts in int. An unsigned long has 64 bits here.
- Saving to a file, bodies with a length, header parsing, and the connection itself.
- Other conversions of StringUtils, among them Base64: they would add only easy members.
- The flat index arithmetic of the upscalers, overflow of the type they are instantiated with, and the three-dimensional version, which repeats the two-dimensional one.
