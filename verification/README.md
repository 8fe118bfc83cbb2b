# Verified models of the GPSIOSDemo libraries

The project models five parts of the repository and proves what they are for.

1. **The allocator** (`dlmalloc.c`, 64-bit words). Chunks tile a segment from its base up to `top`; their head and
   foot fields carry sizes and the CINUSE and PINUSE bits. Free chunks are in small bins (circular lists), in tree
   bins (a bitwise trie over the size, with a ring per size), or are the designated victim. `HeapLayout` has the tiling
   and the boundary tags, `SizeClasses` the size and index arithmetic, `BinMaps` the bit maps, `Rings`, `SmallBins`,
   `SizeTrie`, `TreeLinks`, `TreeContents`, `TreeRemoval`, `TreeSearch` and `TreeBins` the bins, `Malloc` the heap with
   `malloc` and `free`, `Resize` and `Memalign` the in-place resizing and aligned allocation. Every runtime check of the
   source (`RTCHECK`) is evaluated where the source evaluates it; a method's result `ok` says that no check failed, and
   each method proves `ok`.
2. **CRC** (`boost/crc.hpp`). `CrcDivision` has the bit step and its linearity, `CrcPolynomial` the polynomial division
   that CRC is defined by, `Crc` the bit-wise, the table-driven and the augmented implementation, for every width.
3. **The asynchronous client** (`async_tcp_client.cpp`). `Framing` reassembles length-delimited PDUs, `SendQueue` is the
   queue with partial writes, `Timers` the ordered timer vector. What the socket and the clock deliver are parameters.
4. **Streaming codecs and parsers**. `Md5` (RFC 1321, with what its parts compute in `Md5Laws`), `Base64` (section 4 of
   RFC 4648), `HttpParser`, `HttpGrammar`, `HttpLanguage`, `HttpTexts` and `HttpConnection` (a request head parser, the
   texts it reads and the collection of a body). Each is compared with a definition on whole inputs, so that how the
   input was cut up makes no difference; the definitions are tied to the standards bit by bit, character by character
   and by published examples.
5. **Pointer structures**. `SortedMultilist` and `ObjectPool` are linked lists on the heap.

Five properties hold only under a condition, which is proved exactly, with an input that violates it:

- `compute_tree_index` for x86 takes `S >> 8` in 32 bits. It agrees with the portable form if and only if the size is
  below 2^40 or its cut value is still at least 0xC000 (`SizeClasses.BuiltinAgrees`, `SizeClasses.BuiltinFails`).
- The loop of `internal_memalign` that rounds the alignment ends if and only if the alignment is at most half the word
  range (`Memalign.RoundingEnds`); for one more it does not (`Memalign.RoundingNeverEnds`).
- A pass over the timers fires exactly the expired ones, at every reading of the clock, if and only if the deadlines in
  the queue fall from front to back (`Timers.FiresExactlyTheExpired`). Sorting compares waits cut to microseconds, so
  that this is a condition on timers whose waits are then equal (`Timers.FallingIfTiesDo`). It is met when deadlines
  and clock are whole microseconds (`Timers.WholeClockFalls`); on a nanosecond clock an expired timer can be missed
  until the next pass (`Timers.ExpiredTimerMissed`), though none that is due (`Timers.SteadyClockBound`).
- The time that `select` may wait is the least of the limit and all waits, at every reading, if and only if no deadline
  is earlier than that of the timer at the back (`Timers.WaitsForEarliest`, `Timers.FallingWaitsForEarliest`). Else it
  can be a microsecond too long (`Timers.WaitTooLong`), but no more (`Timers.SteadyClockWait`).
- Scheduling a timer that is due before all others, so that the wait under way is too long, interrupts the event loop if
  and only if the queue was empty: `schedule_timer` interrupts for the timer at the front, which is due last
  (`Timers.TimerQueue.ScheduleTimer`, `Timers.EarlierUnnoticed`).

To check the project: `dafny verify dfyconfig.toml`.

## Model

| member | source | states |
|---|---|---|
| `SizeClasses.RequestSizeFits` | GPSIOSDemo/xxsocket/refs/httpserver/dlmalloc.c:2226-2236 | Every admissible request is padded without overflow to an aligned chunk size that holds it, and no smaller one would; requests are small exactly when their chunk size is |
| `SizeClasses.TreeIndexPartition` | GPSIOSDemo/xxsocket/refs/httpserver/dlmalloc.c:2880-2912 | A size selects bin i exactly when it lies between the least sizes of bins i and i+1: the bins partition the sizes |
| `SizeClasses.TreeIndexMonotone` | GPSIOSDemo/xxsocket/refs/httpserver/dlmalloc.c:2880-2897 | Larger sizes never select earlier bins |
| `SizeClasses.RootPrefixOf` | GPSIOSDemo/xxsocket/refs/httpserver/dlmalloc.c:2901-2908 | All sizes of a bin agree on the bits above the first one that its trie looks at |
| `SizeClasses.SignBitReads` | GPSIOSDemo/xxsocket/refs/httpserver/dlmalloc.c:2904-2907 | Shifting the size left and testing the sign bit reads its bits from the top down, whatever falls out of the word |
| `SizeClasses.BuiltinAgrees` | GPSIOSDemo/xxsocket/refs/httpserver/dlmalloc.c:2838-2848 | The x86 form of the index, cut to 32 bits, equals the portable form if and only if the size is below 2^40 or the cut value is at least 0xC000 |
| `SizeClasses.BuiltinFails` | GPSIOSDemo/xxsocket/refs/httpserver/dlmalloc.c:2838-2848 | A size for which the two forms differ |
| `Chunks.HeadWordRoundTrip` | GPSIOSDemo/xxsocket/refs/httpserver/dlmalloc.c:2248-2266 | Size and status bits are recovered from the word they share exactly when the size is a multiple of eight; PINUSE is then bit 0 and CINUSE bit 1 |
| `Malloc.Heap.HeadsFitWords` | GPSIOSDemo/xxsocket/refs/httpserver/dlmalloc.c:3219-3237 | In every valid heap all head fields, that of top included, fit a word and are recovered from it |
| `BinMaps.LeastBitIsolates` | GPSIOSDemo/xxsocket/refs/httpserver/dlmalloc.c:2929-2976 | `least_bit` followed by the bit-to-index step finds the lowest set bit of a map that is not clear |
| `BinMaps.LeftBitsAbove` | GPSIOSDemo/xxsocket/refs/httpserver/dlmalloc.c:2933 | `left_bits` of one bit selects exactly the higher positions, with the wrap-around at the top |
| `SmallBins.SmallBins.InsertSmall` | GPSIOSDemo/xxsocket/refs/httpserver/dlmalloc.c:3570-3586 | The chunk is put in front of the bin of its size, all other listings are unchanged; all circular lists stay intact |
| `SmallBins.SmallBins.UnlinkSmall` | GPSIOSDemo/xxsocket/refs/httpserver/dlmalloc.c:3589-3612 | Exactly the given chunk leaves the listing of its bin, no corruption check fails, and the map follows |
| `SmallBins.SmallBins.UnlinkFirst` | GPSIOSDemo/xxsocket/refs/httpserver/dlmalloc.c:3615-3631 | The front chunk of a marked bin leaves, the one put there last; it has the size of that bin |
| `SmallBins.SmallBins.MapIsOccupancy` | GPSIOSDemo/xxsocket/refs/httpserver/dlmalloc.c:3363-3384 | A bit of the small map is set exactly when some free chunk of that size is binned |
| `SizeTrie.AddLeaf` | GPSIOSDemo/xxsocket/refs/httpserver/dlmalloc.c:3663-3673 | A new leaf at the end of the size's own path keeps the trie well formed: paths follow the size's bits, one place per size, no gaps |
| `SizeTrie.TakeOver` | GPSIOSDemo/xxsocket/refs/httpserver/dlmalloc.c:3724-3748 | Any leaf below a removed node may take its place, because it agrees with it on the bits looked at so far |
| `TreeBins.TreeBins.InsertLarge` | GPSIOSDemo/xxsocket/refs/httpserver/dlmalloc.c:3648-3697 | The descent ends, exactly the one chunk is added as the newest of its size, and trie, rings, parent links and map stay well formed |
| `TreeBins.TreeBins.UnlinkLarge` | GPSIOSDemo/xxsocket/refs/httpserver/dlmalloc.c:3716-3785 | Exactly the one chunk leaves, whether it is in a ring, a leaf or an inner node, the others of its size keeping their order of age; the structure stays well formed and no check fails |
| `TreeBins.TreeBins.FindLarge` | GPSIOSDemo/xxsocket/refs/httpserver/dlmalloc.c:4434-4480 | Following the request's bits, then the deepest right subtree not taken, then leftmost children, finds a chunk of least size that fits, over all tree bins, and the oldest of its size (first in, first out); none if none fits |
| `TreeBins.TreeBins.FindSmallest` | GPSIOSDemo/xxsocket/refs/httpserver/dlmalloc.c:4505-4522 | The leftmost path of the first occupied bin meets the smallest of all tree chunks, the oldest of its size |
| `TreeBins.TreeBins.MapIsOccupancy` | GPSIOSDemo/xxsocket/refs/httpserver/dlmalloc.c:3352-3360 | A bit of the tree map is set exactly when some chunk whose size selects that bin is binned |
| `TreeSearch.DescentStep` | GPSIOSDemo/xxsocket/refs/httpserver/dlmalloc.c:4443-4462 | What the descent leaves behind on either side cannot be a better fit than the candidate or the remembered right subtree |
| `TreeSearch.LeftmostStep` | GPSIOSDemo/xxsocket/refs/httpserver/dlmalloc.c:4472-4480 | In a subtree of fitting sizes only the leftmost path can improve on the node looked at |
| `HeapLayout.PreviousFree` | GPSIOSDemo/xxsocket/refs/httpserver/dlmalloc.c:4365-4377 | A clear PINUSE bit leads, through the foot field, to the free chunk in front |
| `HeapLayout.FreeRegion` | GPSIOSDemo/xxsocket/refs/httpserver/dlmalloc.c:2287-2293 | Writing the tags of a merged free chunk turns a region between chunks in use into one free chunk and keeps tiling, coalescing and tags |
| `HeapLayout.SplitRegion` | GPSIOSDemo/xxsocket/refs/httpserver/dlmalloc.c:4490-4494 | Writing the tags of a split keeps tiling, coalescing and tags, with a chunk in use and a free rest |
| `HeapLayout.WalkMeetsAll` | GPSIOSDemo/xxsocket/refs/httpserver/dlmalloc.c:3423-3452 | Stepping from chunk to chunk by their sizes meets every chunk and nothing else |
| `HeapLayout.WalkCovers` | GPSIOSDemo/xxsocket/refs/httpserver/dlmalloc.c:3423-3452 | The walk is strictly increasing and the sizes met add up to the distance |
| `HeapLayout.LiveDetermines` | GPSIOSDemo/xxsocket/refs/httpserver/dlmalloc.c:2119-2148 | Because free chunks are always merged, two layouts with the same chunks in use are the same |
| `Malloc.Heap.Conserved` | GPSIOSDemo/xxsocket/refs/httpserver/dlmalloc.c:3423-3481 | In every valid heap the chunk sizes and top add up to the segment |
| `Malloc.Heap.NeighboursLive` | GPSIOSDemo/xxsocket/refs/httpserver/dlmalloc.c:2119-2122 | In every valid heap the chunks next to a free chunk, and the one in front of top, are in use |
| `Malloc.Heap.LiveDeterminesTags` | GPSIOSDemo/xxsocket/refs/httpserver/dlmalloc.c:2119-2148 | Whatever was done to them, two heaps of one segment with the same live chunks have the same chunks, top and boundary tags |
| `Malloc.Heap.AllFreed` | GPSIOSDemo/xxsocket/refs/httpserver/dlmalloc.c:4363-4429 | When everything was freed, in any order, the whole segment is top again, and bins and victim are empty |
| `Malloc.Heap.Malloc` | GPSIOSDemo/xxsocket/refs/httpserver/dlmalloc.c:4544-4673 | The heap invariant is kept. Null exactly if no free chunk and not top is large enough, and then nothing changes; else the chunk was not live before, all other live chunks are unchanged, and it is aligned. It was chosen by best fit (the victim first for small requests without an exact fit, top last), and among chunks of a size in turn. A rest that can be a chunk is split off, else the size is the whole chunk's; the rest is the new victim just if it comes from the victim or the request is small, a victim used up is gone, and any other stays |
| `Malloc.ChosenForLarge` | GPSIOSDemo/xxsocket/refs/httpserver/dlmalloc.c:4434-4501 | A best fit in the tree bins that beats the victim is a best fit of all free chunks |
| `Malloc.ChosenVictim` | GPSIOSDemo/xxsocket/refs/httpserver/dlmalloc.c:4638-4656 | When the bins fail, the victim is an admissible choice: a best fit for large requests, the only one but exact fits for small ones |
| `Malloc.OnlyTop` | GPSIOSDemo/xxsocket/refs/httpserver/dlmalloc.c:4658-4670 | When bins and victim fail, no free chunk fits, and only top can serve |
| `Malloc.Heap.SmallRequest` | GPSIOSDemo/xxsocket/refs/httpserver/dlmalloc.c:4575-4627 | The bins serve a small request by an exact or least fit, the rest becoming the victim, or leave everything unchanged and are known not to hold one |
| `Malloc.Heap.TmallocLarge` | GPSIOSDemo/xxsocket/refs/httpserver/dlmalloc.c:4434-4501 | A least fit strictly better than the victim is taken, the victim staying what it is, or nothing: then no tree chunk fits or none beats the victim |
| `Malloc.Heap.TmallocSmall` | GPSIOSDemo/xxsocket/refs/httpserver/dlmalloc.c:4505-4540 | The smallest tree chunk serves the request; its rest, if it can be a chunk, becomes the victim, which else stays what it is |
| `Malloc.Heap.FromSmallBin` | GPSIOSDemo/xxsocket/refs/httpserver/dlmalloc.c:4584-4612 | The chunk put last into the bin is taken, and its rest, if it can be a chunk, becomes the victim |
| `Malloc.Heap.FromVictim` | GPSIOSDemo/xxsocket/refs/httpserver/dlmalloc.c:4638-4656 | The victim is cut and its rest stays the victim, or it is used up and there is none |
| `Malloc.Heap.FromTopChunk` | GPSIOSDemo/xxsocket/refs/httpserver/dlmalloc.c:4658-4670 | The bottom of top is handed out in exactly the size asked for; the victim stays what it is |
| `Malloc.Heap.DisposeChunk` | GPSIOSDemo/xxsocket/refs/httpserver/dlmalloc.c:4363-4429 | The chunk is consolidated on both sides and filed, or joins the victim or top; exactly it is no longer live, and the heap invariant holds. The victim is gone exactly if top took it in or there was none; else it is the free chunk that contains it |
| `Malloc.Heap.Free` | GPSIOSDemo/xxsocket/refs/httpserver/dlmalloc.c:4682-4789 | Freeing a live chunk removes exactly it, keeps the invariant and reaches no error branch, with the victim as for disposal; freeing null changes nothing |
| `Malloc.Heap.KeptTwice` | GPSIOSDemo/xxsocket/refs/httpserver/dlmalloc.c:4363-4429 | What freeing makes of the victim composes: two frees do to it what the one law says |
| `Resize.TryReallocChunk` | GPSIOSDemo/xxsocket/refs/httpserver/dlmalloc.c:4811-4888 | Succeeds exactly when the chunk, with what is free behind it, has room. Then the address is kept, the size is exact (a rest too small for a chunk stays), all other live chunks are unchanged, and a victim extended into is its rest, or used up; else nothing changes |
| `Resize.GiveBackTail` | GPSIOSDemo/xxsocket/refs/httpserver/dlmalloc.c:4821-4830 | The chunk shrinks in place, its tail is freed, all else stays |
| `Memalign.RoundingEnds` | GPSIOSDemo/xxsocket/refs/httpserver/dlmalloc.c:4894-4898 | The rounding loop ends if and only if the alignment is at most half the word range |
| `Memalign.RoundingNeverEnds` | GPSIOSDemo/xxsocket/refs/httpserver/dlmalloc.c:4894-4898 | An alignment that the loop never reaches |
| `Memalign.RoundAlignment` | GPSIOSDemo/xxsocket/refs/httpserver/dlmalloc.c:4892-4898 | The result is the least power of two that is at least the alignment and a least chunk |
| `Memalign.AndPredecessor` | GPSIOSDemo/xxsocket/refs/httpserver/dlmalloc.c:4894 | `a & (a - 1)` is zero exactly for powers of two |
| `Memalign.AndOfBits` | GPSIOSDemo/xxsocket/refs/httpserver/dlmalloc.c:4894 | The numeric form of `&` has a bit exactly where both operands have it |
| `Memalign.HighMask` | GPSIOSDemo/xxsocket/refs/httpserver/dlmalloc.c:4921-4923 | Masking with the negative of a power of two rounds down to a multiple of it |
| `Memalign.AlignedSpot` | GPSIOSDemo/xxsocket/refs/httpserver/dlmalloc.c:4921-4926 | The spot found is aligned and leaves a leader of at least a least chunk, within the padding |
| `Memalign.InternalMemalign` | GPSIOSDemo/xxsocket/refs/httpserver/dlmalloc.c:4890-4962 | Null exactly if the padded request cannot be served; else one new live chunk and all others unchanged. It is cut out of the chunk that malloc chooses for the padded request, at the first address aligned to the rounded power of two that leaves no leader or one of at least a chunk, in exactly the size left when leader and tail are given back; the victim is what malloc left, or the free chunk that took it in |
| `CrcDivision.StepsAtOnce` | GPSIOSDemo/libs/boost/include/boost/crc.hpp:958-966 | Several bit steps at once: the remainder shifted, plus the division of its top bits mixed with the input (the table entry) |
| `CrcDivision.AugmentedIsPlain` | GPSIOSDemo/libs/boost/include/boost/crc.hpp:1047-1076 | Dividing the raw message followed by zeros, from any start, is the plain division from what the zeros make of the start |
| `CrcDivision.AugmentedFromZero` | GPSIOSDemo/libs/boost/include/boost/crc.hpp:1047-1076 | From a zero remainder both divisions agree |
| `CrcDivision.CodewordDivides` | GPSIOSDemo/libs/boost/include/boost/crc.hpp:1047-1076 | A message followed by N bits leaves no remainder if and only if these are its CRC |
| `CrcPolynomial.PlainIsTheRemainder` | GPSIOSDemo/libs/boost/include/boost/crc.hpp:728-752 | From any initial value, the CRC register holds the one remainder of the polynomial division of the shifted message plus the initial value at its place, and no other word is one |
| `Crc.ChecksumIsPolynomialRemainder` | GPSIOSDemo/libs/boost/include/boost/crc.hpp:728-822 | For every initial value, final mask and pair of reflect flags a word is the checksum if and only if, without the mask and in the orientation of the register, it is the remainder of the message polynomial plus the initial value at its place; the message bits being taken from either end of each byte as the flag says |
| `Crc.MessageBitsInOrder` | GPSIOSDemo/libs/boost/include/boost/crc.hpp:755-800 | Bit j of a byte is the j-th of its eight to be divided if input is reflected, else the (7 - j)-th |
| `Words.OfNatBits` | GPSIOSDemo/libs/boost/include/boost/crc.hpp:307-326 | Bit i of the word of a number is its i-th binary digit |
| `Crc.Reflect` | GPSIOSDemo/libs/boost/include/boost/crc.hpp:307-326 | The loop over the bits reverses them |
| `Crc.CrcBasic.ProcessBlock` | GPSIOSDemo/libs/boost/include/boost/crc.hpp:728-800 | The register advances by the division steps of all bits of the block |
| `Crc.CrcTable.InitTable` | GPSIOSDemo/libs/boost/include/boost/crc.hpp:489-536 | Every entry is the division of its index, at the reflected position and reflected, if so asked |
| `Crc.TableStep` | GPSIOSDemo/libs/boost/include/boost/crc.hpp:958-966 | One table look-up and shift equals eight bit steps |
| `Crc.ReflectedTableStep` | GPSIOSDemo/libs/boost/include/boost/crc.hpp:566-622 | The right-shifting step on the reversed register is the reversal of the left-shifting one |
| `Crc.CrcOptimal.ProcessBlock` | GPSIOSDemo/libs/boost/include/boost/crc.hpp:948-967 | The table-driven register stays the (possibly reversed) bit-wise one over every block |
| `Crc.BothChecksums` | GPSIOSDemo/libs/boost/include/boost/crc.hpp:816-996 | For every width, polynomial, initial value, final mask, pair of reflect flags and message, both implementations return the checksum of the definition |
| `Crc.AugmentedCrc` | GPSIOSDemo/libs/boost/include/boost/crc.hpp:1047-1076 | The table-driven loop is the bit-wise division of the raw message |
| `Crc.AugmentedByZeros` | GPSIOSDemo/libs/boost/include/boost/crc.hpp:1047-1076 | On whole-byte widths, the message followed by zero bytes gives the plain CRC, from what the zeros make of the initial remainder |
| `Crc.AugmentedByChecksum` | GPSIOSDemo/libs/boost/include/boost/crc.hpp:1047-1076 | On whole-byte widths, the message followed by a word in big-endian bytes gives zero if and only if the word is its CRC |
| `Crc.PlainFromAugmented` | GPSIOSDemo/libs/boost/include/boost/crc.hpp:1047-1076 | Run over the message and zero bytes, the table-driven loop returns the plain CRC |
| `Crc.CheckCodeword` | GPSIOSDemo/libs/boost/include/boost/crc.hpp:1047-1076 | Run over the message and a word, the table-driven loop returns zero if and only if the word is the CRC of the message |
| `Framing.SplitAppend` | GPSIOSDemo/xxsocket/src/async_tcp_client.cpp:614-651 | Splitting a longer stream by lengths goes on where splitting its first part stopped |
| `Framing.SplitPrefix` | GPSIOSDemo/xxsocket/src/async_tcp_client.cpp:614-651 | The PDUs of the first part of a stream are a prefix of those of the whole |
| `Framing.SplitOfConcat` | GPSIOSDemo/xxsocket/src/async_tcp_client.cpp:614-651 | Splitting undoes concatenation: the stream of PDUs, each of the length its header gives, splits into them, whatever part of one follows |
| `Framing.Receiver.DoRead` | GPSIOSDemo/xxsocket/src/async_tcp_client.cpp:601-695 | One read delivers exactly the PDU at the head of the undelivered bytes, if it is whole, and keeps the rest; it fails exactly on an illegal header, an overlong continuation or a lost connection. Nothing is lost, and deliveries agree with the splitting of the whole stream |
| `Framing.Receiver.ContinuePdu` | GPSIOSDemo/xxsocket/src/async_tcp_client.cpp:645-676 | Within a PDU bytes are always missing, so the count needed is positive, and the buffer is empty between reads |
| `Framing.Receiver.NeverTooLong` | GPSIOSDemo/xxsocket/src/async_tcp_client.cpp:647-651 | With lengths that leave room for a buffer below the limit the too-long error does not occur |
| `Framing.Receiver.DeliveredAreFirst` | GPSIOSDemo/xxsocket/src/async_tcp_client.cpp:442-451 | However the stream was cut, the delivered PDUs are its first ones, all of them once no whole one is left over; splitting the stream and splitting what is undelivered leave the same bytes, and nothing is lost |
| `Framing.Receiver.ServeReads` | GPSIOSDemo/xxsocket/src/async_tcp_client.cpp:278-284 | However the bytes arrive, the reads of the service loop, going on while the buffer holds bytes, deliver the splitting of the whole stream and keep what it leaves over; they fail if and only if that is illegal as the beginning of a PDU |
| `Framing.Receiver.Dispatch` | GPSIOSDemo/xxsocket/src/async_tcp_client.cpp:172-184 | The application gets queued PDUs in order, at least one and at most the count |
| `SendQueue.Sender.DoWrite` | GPSIOSDemo/xxsocket/src/async_tcp_client.cpp:536-599 | All bytes left taken: the PDU leaves and is reported sent. Some taken in time: it stays in front, its offset grown by them. Some taken after its deadline: it leaves with a timeout. None taken on a broken connection: it leaves as lost, and the write fails. Else nothing changes. The wire grows by just the bytes taken, and a callback is handed over just if there is one |
| `SendQueue.Sender.AsyncSend` | GPSIOSDemo/xxsocket/src/async_tcp_client.cpp:423-440 | On an open connection exactly one new PDU is queued last, on a closed one nothing |
| `SendQueue.Sender.HandleError` | GPSIOSDemo/xxsocket/src/async_tcp_client.cpp:347-373 | All queued PDUs are disposed of without a callback |
| `SendQueue.Sender.EachOnce` | GPSIOSDemo/xxsocket/src/async_tcp_client.cpp:536-599 | Over every run each accepted PDU is either queued or was disposed of once, with at most one callback |
| `SendQueue.Sender.WireIsFifo` | GPSIOSDemo/xxsocket/src/async_tcp_client.cpp:536-574 | While no PDU was dropped, the bytes written are the completed PDUs in order and the first bytes of the one in front |
| `SendQueue.Sender.Run` | GPSIOSDemo/xxsocket/src/async_tcp_client.cpp:299-323 | Over every run of sends and writes in which no write fails and none comes too late for a PDU that it takes a part of, no PDU is dropped, and the bytes written are the PDUs handed over, in order, up to the part written of the one in front |
| `SendQueue.Sender.Drain` | GPSIOSDemo/xxsocket/src/async_tcp_client.cpp:299-323 | As many writes as the queue has bytes and PDUs, each taking something, leave it empty and everything written |
| `SendQueue.Transfer` | GPSIOSDemo/xxsocket/src/async_tcp_client.cpp:278-323 | A receiver of all that a drained sender wrote, in whatever pieces, delivers the PDUs handed over, in order, with nothing left |
| `Timers.TimerQueue.ScheduleTimer` | GPSIOSDemo/xxsocket/src/async_tcp_client.cpp:697-711 | The timer is queued once; the queue stays free of duplicates and is sorted by the waits at this reading. The event loop is interrupted just if the timer is in front; if it is due before all others, just if the queue was empty |
| `Timers.EarlierUnnoticed` | GPSIOSDemo/xxsocket/src/async_tcp_client.cpp:697-711 | Two timers of which the second, due first, interrupts nothing |
| `Timers.TimerQueue.CancelTimer` | GPSIOSDemo/xxsocket/src/async_tcp_client.cpp:713-722 | Exactly the timer leaves, with one callback |
| `Timers.TimerQueue.PerformTimeoutTimers` | GPSIOSDemo/xxsocket/src/async_tcp_client.cpp:724-756 | From the back, timers fire once each up to the first not expired: exactly the expired ones if the deadlines fall, and all that are due on a clock that has not gone back. Looping ones are queued again with a new deadline and the queue is sorted anew, others are dropped, none else is changed |
| `Timers.MicrosCut` | GPSIOSDemo/xxsocket/src/deadline_timer.h:71-79 | A wait is cut towards zero by less than a microsecond, and a timer is expired as soon as less than one is left |
| `Timers.FiredAre` | GPSIOSDemo/xxsocket/src/async_tcp_client.cpp:732-746 | The timers taken from the back are called back in that order, not as cancelled |
| `Timers.LoopingAre` | GPSIOSDemo/xxsocket/src/async_tcp_client.cpp:732-746 | Those queued again are exactly the looping ones among them |
| `Timers.FiresExactlyTheExpired` | GPSIOSDemo/xxsocket/src/async_tcp_client.cpp:732-746 | At every reading a pass fires exactly the expired timers if and only if the deadlines fall from front to back; that is also when no expired timer ever stands in front of one that is not |
| `Timers.FallingIfTiesDo` | GPSIOSDemo/xxsocket/src/async_tcp_client.cpp:705-707 | After sorting, the deadlines fall if and only if they do among timers whose waits are equal |
| `Timers.WholeClockFalls` | GPSIOSDemo/xxsocket/src/deadline_timer.h:71-79 | With deadlines and clock on whole microseconds they do, and expired means due |
| `Timers.SteadyClockBound` | GPSIOSDemo/xxsocket/src/deadline_timer.h:71-79 | However fine the clock, no timer fires a microsecond early; none that is due is missed if the clock has not gone back since the sorting, and none overdue by a microsecond if it has |
| `Timers.ExpiredTimerMissed` | GPSIOSDemo/xxsocket/src/async_tcp_client.cpp:705-707 | Two deadlines for which an expired timer is missed |
| `Timers.TimerQueue.GetWaitDuration` | GPSIOSDemo/xxsocket/src/async_tcp_client.cpp:757-790 | Zero if a send is pending; else seconds and microseconds together are the least of limit and wait of the timer at the back, or zero if it is due. That is the least over all timers if none has an earlier deadline, and never below it nor above it by more than a microsecond (two, if the clock has gone back) |
| `Timers.WaitsForEarliest` | GPSIOSDemo/xxsocket/src/async_tcp_client.cpp:769-780 | The wait of the timer at the back gives the least over all timers, for every limit and reading, if and only if no deadline is earlier |
| `Timers.FallingWaitsForEarliest` | GPSIOSDemo/xxsocket/src/async_tcp_client.cpp:769-780 | So it does when the deadlines fall |
| `Timers.SteadyClockWait` | GPSIOSDemo/xxsocket/src/async_tcp_client.cpp:769-780 | In a queue sorted by cut waits it is at most a microsecond more than the least, two if the clock has gone back |
| `Timers.WaitTooLong` | GPSIOSDemo/xxsocket/src/async_tcp_client.cpp:769-780 | Two deadlines for which one timer is due and the wait is a microsecond |
| `Timers.TimerQueue.CancelAll` | GPSIOSDemo/xxsocket/src/async_tcp_client.cpp:374-379 | When the connection is lost, every queued timer gets one cancelling callback, in order |
| `Md5.MD5.Transform` | GPSIOSDemo/MD5.cpp:137-221 | The 64 unrolled operations are the step rule of section 3.4 of RFC 1321, with its word order, shifts and table |
| `Md5Laws.FBits` | GPSIOSDemo/MD5.cpp:37-39 | In every bit F selects the second or third word by the first |
| `Md5Laws.GBits` | GPSIOSDemo/MD5.cpp:41-43 | In every bit G selects the first or second word by the third |
| `Md5Laws.HBits` | GPSIOSDemo/MD5.cpp:45-47 | In every bit H is the parity of the three |
| `Md5Laws.IBits` | GPSIOSDemo/MD5.cpp:49-51 | In every bit I is the second word, flipped where the first is set or the third is not |
| `Md5Laws.RotatedBits` | GPSIOSDemo/MD5.cpp:54-56 | Rotation moves every bit up by the count, those at the top to the bottom |
| `Md5Laws.LittleEndianBits` | GPSIOSDemo/MD5.cpp:113-119 | The bits of a word are those of its four bytes, the lowest first |
| `Md5Laws.InitialBytes` | GPSIOSDemo/MD5.cpp:96-109 | The initial words are the sixteen bytes of section 3.3 of RFC 1321 |
| `Md5Laws.AlphabetDigest` | GPSIOSDemo/MD5.cpp:137-221 | The digest of the 26 letters is the one of section A.5 of RFC 1321, computed through all 64 steps |
| `Md5.CountIs` | GPSIOSDemo/MD5.cpp:227-236 | The two counter words with their carry hold the length in bits modulo 2^64 |
| `Md5.BlocksAppend` | GPSIOSDemo/MD5.cpp:238-257 | Whole blocks can be transformed before the rest of the message is known |
| `Md5.MD5.Update` | GPSIOSDemo/MD5.cpp:227-260 | State, buffer and counter always stand for the whole message so far; offsets stay within 32 bits |
| `Md5.MD5.Finalize` | GPSIOSDemo/MD5.cpp:274-306 | The digest is that of the message padded as in sections 3.1 and 3.2 of RFC 1321 |
| `Md5Laws.PaddingLaw` | GPSIOSDemo/MD5.cpp:274-294 | The padded message is the message, the byte 0x80, zeros, and its length in bits as two little-endian words; it is a whole number of blocks, and no block more than needed |
| `Md5.OneShot` | GPSIOSDemo/MD5.cpp:87-92 | The constructor for a text leaves its digest |
| `Md5.InPieces` | GPSIOSDemo/MD5.cpp:227-306 | However a message is cut into updates, the digest is that of the whole |
| `Md5.BytesRoundTrip` | GPSIOSDemo/MD5.cpp:113-132 | Decoding undoes encoding of a word |
| `Base64.RoundTrip` | GPSIOSDemo/xxsocket/src/libb64.cpp:8-186 | Decoding the code of any message returns it, padding and newlines being skipped |
| `Base64.AlphabetIs` | GPSIOSDemo/xxsocket/src/libb64.cpp:8-15 | The encoder writes the characters of table 1 of RFC 4648, the decoder gives each its place there, and no other character a value |
| `Base64.TestVectors` | GPSIOSDemo/xxsocket/src/libb64.cpp:104-186 | The examples of section 10 of RFC 4648, with their padding |
| `Base64.EncodedLength` | GPSIOSDemo/xxsocket/src/libb64.cpp:87-163 | The code has four characters for every three bytes begun, and the newlines |
| `Base64.Encoder.EncodeBlock` | GPSIOSDemo/xxsocket/src/libb64.cpp:104-163 | Whatever the calls before, step, pending bits, group count and output stand for all input so far |
| `Base64.Encoder.EncodeBlockEnd` | GPSIOSDemo/xxsocket/src/libb64.cpp:165-186 | All output together is the code of all input, however it was cut |
| `Base64.Decoder.DecodeBlock` | GPSIOSDemo/xxsocket/src/libb64.cpp:8-85 | The bytes written continue those of all values read, however the code was cut; nothing behind the byte in progress is touched |
| `Base64.EncodePieces` | GPSIOSDemo/xxsocket/src/libb64.cpp:87-186 | However a message is cut into encoder calls, all output together is its code |
| `Base64.DecodePieces` | GPSIOSDemo/xxsocket/src/libb64.cpp:8-85 | However a code is cut into decoder calls, the bytes returned together are those of the whole code |
| `Base64.StreamRoundTrip` | GPSIOSDemo/xxsocket/src/libb64.cpp:8-186 | Encoding in any pieces and decoding in any other pieces returns the message |
| `HttpParser.CutIndependent` | GPSIOSDemo/xxsocket/refs/httpserver/request_parser.hpp:41-52 | Parsing a and then b is parsing both at once, until decided |
| `HttpParser.RequestParser.ConsumeChar` | GPSIOSDemo/xxsocket/refs/httpserver/request_parser.cpp:27-289 | The twenty-state machine on a mutable request is the transition function that the results below are about |
| `HttpParser.RequestParser.ParseInput` | GPSIOSDemo/xxsocket/refs/httpserver/request_parser.hpp:41-52 | The loop is the repeated transition, with the header length counting what was consumed |
| `HttpGrammar.PrintedIsParsed` | GPSIOSDemo/xxsocket/refs/httpserver/request_parser.cpp:27-289 | Every printed message, with continuation lines, is accepted with its parts as the fields, the header length as printed, and the last Content-Length |
| `HttpLanguage.AcceptsExactlyThePrinted` | GPSIOSDemo/xxsocket/refs/httpserver/request_parser.cpp:27-289 | An input is accepted if and only if it begins with a printed message, and the parser stops where that ends |
| `HttpLanguage.RefusesExactlyTheHopeless` | GPSIOSDemo/xxsocket/refs/httpserver/request_parser.cpp:27-289 | An input is refused if and only if, however it goes on, it does not begin with a printed message: no dead end is waited in |
| `HttpTexts.AtoiReads` | GPSIOSDemo/xxsocket/refs/httpserver/request_parser.cpp:276 | The value read from blanks, a sign, a number in base ten with zeros in front and anything but a digit is that number, negative after a minus sign, zero without digits |
| `HttpTexts.DigitsAreNumerals` | GPSIOSDemo/xxsocket/refs/httpserver/request_parser.cpp:124-174 | The value of digits is n if and only if they are n in base ten, with zeros in front |
| `HttpTexts.ContentLengthNames` | GPSIOSDemo/xxsocket/refs/httpserver/request_parser.cpp:273-274 | A field gives the length exactly if its name is content-length with each letter in either case |
| `HttpTexts.VerbNames` | GPSIOSDemo/xxsocket/refs/httpserver/connection.cpp:121-151 | The methods POST and GET are recognised with each letter in either case |
| `HttpTexts.TokenCharacters` | GPSIOSDemo/xxsocket/refs/httpserver/request_parser.cpp:291-316 | Tokens are made of letters, digits and fifteen other characters |
| `HttpTexts.TextCharacters` | GPSIOSDemo/xxsocket/refs/httpserver/request_parser.cpp:296-299 | Targets and values are made of printable ASCII and everything beyond ASCII |
| `HttpTexts.DeclaredIsRead` | GPSIOSDemo/xxsocket/refs/httpserver/request_parser.cpp:269-277 | The length taken is the one that the last Content-Length field declares, in base ten, and zero without one |
| `HttpConnection.Connection.HeadRead` | GPSIOSDemo/xxsocket/refs/httpserver/connection.cpp:100-173 | After each read the verdict is that on all bytes received as a whole |
| `HttpConnection.Connection.ContentRead` | GPSIOSDemo/xxsocket/refs/httpserver/connection.cpp:175-227 | The same while the body is collected |
| `HttpConnection.Connection.ReadFailed` | GPSIOSDemo/xxsocket/refs/httpserver/connection.cpp:160-171 | A failed read stops the connection without a request having been handled |
| `HttpConnection.WaitsForWholePost` | GPSIOSDemo/xxsocket/refs/httpserver/connection.cpp:100-227 | Every proper part of a complete POST message, whose last Content-Length field declares the length of the body in base ten, leaves the connection waiting; the whole is handled |
| `HttpConnection.ServePost` | GPSIOSDemo/xxsocket/refs/httpserver/connection.cpp:100-227 | For every segmentation into reads a POST message, with the length of its body declared in base ten, is handled exactly once, after the last read, with its body as the content |
| `HttpConnection.JudgedOthers` | GPSIOSDemo/xxsocket/refs/httpserver/connection.cpp:100-227 | A GET is handled without content, whatever follows it; another method, more than the declared body and more than 16384 bytes are refused |
| `SortedMultilist.List.Insert` | GPSIOSDemo/xxsocket/refs/async/sorted_multilist.hpp:139-175 | The list stays sorted and acyclic, and the value is put between those not greater and those not less, by one new node, and of the old nodes at most one has its value changed (the swap) |
| `SortedMultilist.List.Remove` | GPSIOSDemo/xxsocket/refs/async/sorted_multilist.hpp:82-98 | The first value equal to the given one is removed, if there is one |
| `SortedMultilist.List.RemoveIf` | GPSIOSDemo/xxsocket/refs/async/sorted_multilist.hpp:62-80 | What is left are the values that do not meet the condition, in their order |
| `SortedMultilist.WithoutIs` | GPSIOSDemo/xxsocket/refs/async/sorted_multilist.hpp:62-80 | The values kept are those not meeting the condition, each as often as before and part by part in order |
| `SortedMultilist.PlaceFound` | GPSIOSDemo/xxsocket/refs/async/sorted_multilist.hpp:141-169 | For every strict weak order, the walk of insert ends where the value belongs, in front of or behind the node |
| `SortedMultilist.List.Clear` | GPSIOSDemo/xxsocket/refs/async/sorted_multilist.hpp:50-60 | The list becomes empty |
| `ObjectPool.Pool.Get` | GPSIOSDemo/xxsocket/src/object_pool.h:110-124 | The slot handed out was not in use; the slots of all chunks are those free and those in use, and the counter with the free ones adds up to them |
| `ObjectPool.Pool.Release` | GPSIOSDemo/xxsocket/src/object_pool.h:126-139 | The slot is free again and the next to be handed out |
| `ObjectPool.Pool.Enlarge` | GPSIOSDemo/xxsocket/src/object_pool.h:142-163 | A new chunk's slots are all on the free list, each once |

## Left out

- Malloc.Heap.Malloc: requests that the segment cannot serve go to the system layer (`sys_alloc`), which is taken to refuse; mapped chunks, further segments, trimming, footers, statistics and locks are not modelled.
- Malloc.Heap.Free: the consolidation that `dlfree` and `dispose_chunk` each spell out is written once; trimming of top and releasing of segments after a free are not modelled, nor are frees of pointers that are not live.
- TreeBins.TreeBins.InsertLarge: bins use the portable form of the tree index; the x86 form differs from it only as `SizeClasses.BuiltinAgrees` says.
- Memory: head, foot and link fields are separate maps from chunk addresses, the links of small and of tree chunks being apart, so that fields overlaid on user data are not modelled; user data, and copying it in `realloc`, are left out.
- Memalign.InternalMemalign: alignments above half the word range are excluded, since the source's loop does not end for them.
- SmallBins.SmallBins.UnlinkFirst: is called on marked bins only, as in the source.
- Crc.AugmentedByZeros: widths that are no multiple of eight are excluded, as the big-endian bytes of the checksum are.
- CRC: the 8-bit specialisations that the templates select, and `crc_optimal`'s interim remainder accessors.
- Framing.Receiver.DoRead: the decode function is a parameter that must be stable and give positive lengths; `MAX_PDU_LEN` is 10 MiB, the macro it is written with being no part of this model; a moved-from PDU buffer counts as empty.
- SendQueue.Sender.DoWrite: whether an error closes the connection is an input, the macros that decide it being no part of this model; the PDU captured for the callback is the one taken from the front.
- Timers.TimerQueue.PerformTimeoutTimers: one clock reading serves a whole call, and callbacks do not call back into the queue.
- Framing.Receiver.ServeReads: lengths are taken to be within the limit, beyond which `DoRead` says when a read is refused; a wake-up without bytes is an empty piece, and polling goes on until a read delivers nothing.
- Timers.Sort: stands for the library sort by its contract, with one admissible algorithm.
- Threads, locks, select, interrupters, the service loop and the peer-to-peer channels of the client.
- Md5.MD5.Update: is not modelled after `finalize`; the counters are numbers below 2^32. The hexadecimal form is left out.
- Base64.Decoder.DecodeBlock: the character `{`, for which the source reads its table one past the end, is excluded; `|=` on disjoint bits is an addition, and the two tables are stated by their ranges.
- HttpParser.RequestParser.ConsumeChar: version numbers and Content-Length values are unbounded until converted, so that overflow of `int` is not modelled; characters above 127 are the negative ones of a signed `char`.
- HttpConnection.Connection.HeadRead: the request handler, replies, timeouts and logging are not modelled; a handled request is recorded.
- SortedMultilist.List.Insert: nodes come from the garbage-collected heap instead of a pool.
- ObjectPool.Pool.Get: a slot is an object with a link; `cleanup`, `purge` and the allocator adapters are left out.
- Binary streams, endian helpers, string conversion, the CSV parser, Lua bindings and the other Boost headers would only add easy members.
