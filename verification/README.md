# Verification of ufedmd

ufedmd stands between a NAND flash chip and the programs that use it. It lays a raw page out in
named spans, runs chains of codecs over them, and picks the pipeline of a page by the partition the
page lies in. This project models four parts of it and proves what they promise.

**Software Hamming code** (`HammingCode` to `HammingChannel`). `HammingCode` defines the code of a
block by its address-bit parities alone. `HammingFold`, `HammingParities` and `HammingCalculate`
prove that the unrolled, word-at-a-time computation, in place on byte arrays, refines it.
`HammingSyndrome`, `HammingSecded` and `HammingGuarantees` prove single-error correction and
double-error detection for every block from the linearity of the code; `HammingCodec` and
`HammingChannel` carry this over to any number of steps on span buffers, where source and
destination may be the same span. A 32-bit load has the byte order of the host, and `big_endian` is
a separate setting: `swapped` says that the two differ.

**Hash map** (`RobinHood`, `HashMap`, `Sizing`). A class with the fields of the source and an array
of buckets. `Valid()` holds after the constructor and after every method: each entry sits at its hash
plus distance, distances grow by at most one a step around the ring, keys are distinct, the count is
right, the number of buckets is a power of two of at least `cap` and 16, and at least one bucket is
empty. Every method is proved against a finite map. The hash is a parameter, and two keys compare
equal when they are the same; a set, get or delete with a given hash requires the hash to be that of
the key. Whether an allocation succeeds is a parameter. `Sizing` proves that the thresholds make
resizing cheap over whole runs. `Map.Get` gives the bucket that a pointer to an item points to, and
`HashMap.KeepsExactly` says exactly which sets leave such pointers valid. `SipHash` is the hash that
the names of spans get.

**Page layout and requests** (`Layout`, `LayoutProperties`, `SpanPointers`, `LayoutBuilder`,
`LayoutCases`, `PageCopy`, `Pipelines`, `Creation`, `Requests`, `Queues`, `RoundTrip`, `RequestBytes`,
`EndToEnd`). A layout is built for every sort that `qsort` may be and every hash, with the spans in a
hash map and the parts pointing into its buckets. Composing and extracting a page work in place on the
page and the span buffers and are inverse. `write_process` and `read_process` are methods on those
buffers, proved against functions of their contents. `RequestBytes` says of every byte of a stored page
and of a read result where it comes from; `EndToEnd.DataSurvives` joins the parts for one pipeline.

**Partitions and selection** (`Partitions`, `Demux`, `Selector`, `Schemes`, `SchemeBuilder`,
`DeviceRuns`). Reading and checking partitions, and the three strategies, with the tables filled in
place. `SchemeBuilder` builds a scheme from any configuration, its partitions taken in the order in
which their hash map is scanned; `Schemes` proves what a request to any page of the device gets, with
the automatic NACK at index 0. `DeviceRuns` speaks of whole runs: in every run of writes, reads and
damage, to any pages and by any workers, every read returns the last write to its page.

**The shipped configuration** (`NandFlash`, `NandBbmPages`, `NandOtherPages`, `NandScheme`): both
pipelines and the partitions of `configs/linux-ecc-hamming-nand.json` are created from the configured
values, and the theorems hold of every page and every run.

## Where the code departs from its documentation

The model follows the code in each case. Where the code would leave its buffers or use a pointer that
no longer points to its item, the model either answers an outcome of its own (`OutsideTable`,
`Strayed`) or requires that this does not happen, and says exactly when it does not.

- `src/pipeline/scheme.c:912-916` hands out pointers to spans in the buckets of a hash map, and
  `1040-1056` and `1107-1125` read and write through them after later names have been set. A set moves
  a stored span when the new name displaces it, and replaces all buckets at the tenth name. So a
  layout that passes all checks is built, or aborts for an empty span, only if there are at most nine
  names and each finds an empty bucket before one whose entry is nearer to its home:
  `SpanPointers.SpansStay`, a condition on names and hashes. After the first loop every part still
  points to its span if and only if it holds (`LayoutBuilder.NamingMeans`). Otherwise `LayoutBuilder.AddParts` answers `Strayed`, and what the
  code then does is not modelled. `LayoutCases.TenNames` is an input for every hash, and
  `LayoutCases.ThreeNames` one for the hash of the code: "bbm", "ecc" and "spare". The names of the
  shipped configuration stay (`NandScheme.ShippedNamesStay`).
- `src/pipeline/scheme.c:546-550`, `566-570`, `635-639` and `655-659` set an error and go on, and
  success overwrites it. `Pipelines.RangesAreNotChecked` says so, with an example; a range lies in its
  span exactly when the lost check holds (`RangeCheckMeans`).
- `hamming_encode` runs over the source length, rounded up to whole steps, and `hamming_decode` over
  the configured `steps`; nothing compares the two, or `steps` with the length. The storage check
  bounds the codes of decoding exactly when there are no more steps than the length has
  (`HammingCodec.CheckBoundsDecodeExactly`), and what was encoded is acknowledged exactly when no more
  steps are decoded (`HammingChannel.RecoversExactly`). So ranges in their spans are not enough to
  keep a codec inside its buffers, as `Requests.StepsLeaveSpans` and `PartialBlockLeavesSpan` show. They
  are enough, whatever the spans, if and only if the steps fit the data range, or the source is a
  whole number of steps (`ReadFitsExactly`, `WriteFitsExactly`, which also cover two ranges of one
  span). Running a codec requires that it stays inside its buffers (`ReadFits`,
  `WriteFits`).
- `src/pipeline/scheme.c:1408-1420` looks for overflow in the record before it has the new ranges
  (`Partitions.RefusedForOverflow`, with an example).
- `src/pipeline/scheme.c:1498` adds the start of the eraseblocks to the length of the pages and
  compares with the number of eraseblocks. `Partitions.RangeCheckExactly` says exactly which
  partitions are therefore accepted or refused wrongly. Accepted pages can have entries past the end
  of the table; `Demux.AcceptedInTable` says exactly which, `EntryPastTable` is one, and where the code
  would write there the model answers `OutsideTable`. Whenever a selector is built, it gives every page
  to its owner exactly when no accepted partition leaves its eraseblocks (`Selector.Initialize`).
- `src/pipeline/scheme.c:950-956` says that no part is empty. Nothing refuses an empty part: its
  acceptance can depend on the order of equal starts, and a span of empty parts aborts.
- `src/pipeline/queues.c:23-25` says that lengths were verified, but requests are not compared with
  the spans they map to. All requests that the assertions admit fit exactly when the spans are as long
  as the two parts of the page (`Requests.RequestsFitExactly`). In the shipped configuration they are
  not: `FullRequestDoesNotFit` in `NandBbmPages` and `NandOtherPages`. Serving a request requires that
  it fits (`MappingFits`).

## Model

| member | source | states |
|---|---|---|
| `HammingTables.InvParity` | src/pipeline/codecs/linux-ecc-hamming.c:57-67 | Every entry of the table is one exactly when its index has an even number of set bits |
| `HammingTables.BitsPerByte` | src/pipeline/codecs/linux-ecc-hamming.c:74-331 | Every entry is the number of set bits of its index |
| `HammingTables.AddressBits` | src/pipeline/codecs/linux-ecc-hamming.c:339-360 | Every entry is the number read off bits 1, 3, 5 and 7 of its index |
| `HammingCalculate.Accumulate` | src/pipeline/codecs/linux-ecc-hamming.c:374-462 | The unrolled loop leaves in each accumulator the xor of exactly the words whose index has the accumulator's bit clear, and in `par` that of all words |
| `HammingCalculate.Calculate` | src/pipeline/codecs/linux-ecc-hamming.c:362-596 | For every block of 256 or 512 bytes the unrolled words, folds and half-word tricks compute the code that the plain address-bit parities define, in either `sm_order` and for every pair of host and configured byte order |
| `HammingCorrect.Correct` | src/pipeline/codecs/linux-ecc-hamming.c:598-664 | In place: verdict and block are those of the decoder function, and no byte outside the block changes |
| `HammingSyndrome.DecodeIsJudge` | src/pipeline/codecs/linux-ecc-hamming.c:625-663 | The decoder's mask, shift and table arithmetic on three bytes decides exactly as a definition on twelve pairs of parity bits does: all equal, every used pair differs, a single difference, anything else |
| `HammingSecded.SyndromeOfFlips` | src/pipeline/codecs/linux-ecc-hamming.c:605-618 | The code is linear: after any list of flips of data and code bits the decoder sees the sum of the single flips' effects, whatever the block holds |
| `HammingSecded.AddressFromPairs` | src/pipeline/codecs/linux-ecc-hamming.c:648-654 | Reading the byte and bit address back out of the syndrome inverts the parities of that address |
| `HammingGuarantees.NoFlip` | src/pipeline/codecs/linux-ecc-hamming.c:625-626 | Nothing flipped: zero is returned and the block is unchanged |
| `HammingGuarantees.SingleDataFlip` | src/pipeline/codecs/linux-ecc-hamming.c:628-657 | Every single flipped data bit is reported as corrected; the block is restored if and only if host and configured byte order agree, and otherwise the mirrored byte is hit |
| `HammingGuarantees.SingleCodeFlip` | src/pipeline/codecs/linux-ecc-hamming.c:659-661 | Every single flipped code bit is reported as corrected and the data is left alone |
| `HammingGuarantees.DoubleFlip` | src/pipeline/codecs/linux-ecc-hamming.c:625-663 | Every two distinct flips among data and code bits, save the exempt pairs, are reported as uncorrectable and the data stays as received |
| `HammingGuarantees.ExemptFlips` | src/pipeline/codecs/linux-ecc-hamming.c:628-657 | The exempt pairs (256-byte blocks: a data bit and one of the two unused bits of the third code byte) are corrected like the data flip alone |
| `HammingCodec.EnoughOobExactly` | src/pipeline/codecs/linux-ecc-hamming.c:673-677 | The storage check passes if and only if every step that begins inside the data has three bytes for its code, the codes following each other |
| `HammingCodec.CheckBoundsCodes` | src/pipeline/codecs/linux-ecc-hamming.c:673-721 | On a passed storage check the three-byte codes of all encoded steps stay inside the destination range |
| `HammingCodec.CheckBoundsDecodeExactly` | src/pipeline/codecs/linux-ecc-hamming.c:728-783 | The storage check keeps the codes of all decoded steps inside the out-of-band range if and only if there are no more configured steps than the data length has, which nothing compares |
| `HammingCodec.WholeBlocks` | src/pipeline/codecs/linux-ecc-hamming.c:703-721 | The blocks of a length, rounded up, stay inside it if and only if it is a multiple of the step; no more blocks than fit are no more steps than it has |
| `HammingCodec.Encode` | src/pipeline/codecs/linux-ecc-hamming.c:679-726 | In place: acknowledges if and only if every step that begins inside the source has room for its code, and then the spans become those after all steps, each step reading what earlier ones left; otherwise nothing changes and the boundaries error is answered |
| `HammingCodec.DecodeRange` | src/pipeline/codecs/linux-ecc-hamming.c:728-785 | In place: the boundaries error if and only if some step that begins inside the data has no room for its code; otherwise steps are repaired in order up to the first that cannot be, and that decides the answer |
| `HammingChannel.EncodeProtects` | src/pipeline/codecs/linux-ecc-hamming.c:703-721 | Encoding any number of steps changes only the first three bytes a step of the destination, and leaves every block with its own code |
| `HammingChannel.EncodesBlock` | src/pipeline/codecs/linux-ecc-hamming.c:703-721 | Even when source and destination overlap, a block that no code is written into gets its own code |
| `HammingChannel.CodeOfOneBit` | src/pipeline/codecs/linux-ecc-hamming.c:380-596 | The code of a block with a single bit set, bit by bit: which code bit of which byte each address bit decides, in either order of the code bytes |
| `HammingChannel.DecodeRestores` | src/pipeline/codecs/linux-ecc-hamming.c:754-780 | If every step has no flip, one flip or an exempt pair, decoding gives back all blocks as stored and changes no other byte of any span |
| `HammingChannel.DecodeVerdict` | src/pipeline/codecs/linux-ecc-hamming.c:754-783 | Decoding acknowledges if and only if no step has a detected double error |
| `HammingChannel.DecodeStopsAt` | src/pipeline/codecs/linux-ecc-hamming.c:754-783 | The first step with a detected double error ends the run: the blocks before it are restored, it and all behind it are left as received |
| `HammingChannel.UnencodedStep` | src/pipeline/codecs/linux-ecc-hamming.c:754-780 | A step whose block and code are zeros ends in the recovery error, for any configuration |
| `HammingChannel.RecoversExactly` | src/pipeline/codecs/linux-ecc-hamming.c:679-785 | Decoding acknowledges what encoding left in spans of any contents if and only if no more steps are decoded than were encoded |
| `RobinHood.RicherMeansAbsent` | src/common/hashmap.c:303-325 | Once a probe meets a bucket poorer in distance than itself, or an empty one, the key is nowhere in the table; this is why a set may stop comparing keys after a displacement |
| `RobinHood.PlaceKeepsOrder` | src/common/hashmap.c:303-307 | Putting a carried entry over a richer or empty bucket keeps position, cyclic order, distinct keys and stored hashes |
| `RobinHood.SwapKeeps` | src/common/hashmap.c:317-322 | After a swap the table and the newly carried entry together hold exactly the same items |
| `RobinHood.DibBound` | src/common/hashmap.c:323-325 | A carried entry never travels past the next empty bucket, so the displacement loops stop |
| `RobinHood.ShiftGap` | src/common/hashmap.c:396-409 | Moving one entry back into the gap keeps all invariants but the order at the new gap, across the wrap-around |
| `RobinHood.ShiftStores` | src/common/hashmap.c:396-409 | The backward shift neither loses nor doubles an item |
| `RobinHood.CountIsSize` | src/common/hashmap.c:434-437 | There are as many occupied buckets as items |
| `Sizing.MaskIsRemainder` | src/common/hashmap.c:302-302 | `hash & mask` for a power of two is the remainder, for all hashes |
| `HashMap.Capacity` | src/common/hashmap.c:122-130 | The rounding loop gives the least power of two that is at least 16 and the asked capacity, and a power of two gives itself |
| `HashMap.Place` | src/common/hashmap.c:246-262 | The inner loop of a resize stops, and adds the entry to the table with all invariants |
| `HashMap.Rehash` | src/common/hashmap.c:235-263 | The new table has the asked size, all invariants, and exactly the items of the old one, each moved once |
| `HashMap.Insert` | src/common/hashmap.c:295-325 | The probe and displacement loop stops; afterwards the table holds the old map with the key bound to the new item, and the old item is returned if there was one; a new key goes into the first bucket of its probe that is empty or whose entry is nearer to its home, and no stored entry moves back |
| `HashMap.KeepsExactly` | src/common/hashmap.c:295-325 | A set of a new key without a resize leaves every stored entry in its bucket if and only if the first bucket of the probe that is empty or nearer to its home is empty |
| `HashMap.Find` | src/common/hashmap.c:343-357 | The search stops, and finds the stored item if and only if the key is in the map |
| `HashMap.Remove` | src/common/hashmap.c:396-409 | The backward-shift loop stops, restores all invariants, and removes exactly the deleted key |
| `HashMap.FieldsFit` | src/common/hashmap.c:32-35 | Stored distances are below the number of buckets, so 16 bits hold them up to 65536 buckets, and a stored hash is the hash of its key modulo 2^48 |
| `HashMap.CarriedFits` | src/common/hashmap.c:32-35 | The distance of an entry carried by the set and resize loops is below the number of buckets too; both loops keep this as an invariant |
| `HashMap.Map.constructor` | src/common/hashmap.c:112-169 | Once its memory is there, a new map is valid and empty |
| `HashMap.New` | src/common/hashmap.c:112-169 | A valid, empty map if both allocations succeed, and nothing if either fails |
| `HashMap.Map.Resize` | src/common/hashmap.c:235-272 | Grow or shrink: same map, invariants and thresholds of the new size; on failed allocation nothing changes |
| `HashMap.Map.SetWithHash` | src/common/hashmap.c:282-326 | The map is updated at one key and nowhere else, the old item is returned; `oom` is set exactly when the table is filled to 60% and there is no memory, and then nothing changes; filled to 60% and with memory the number of buckets doubles, under the default grow power, and the buckets are replaced, and only then |
| `HashMap.Map.GetWithHash` | src/common/hashmap.c:340-358 | The stored item, and the bucket it is in, if the key is in the map, else nothing |
| `HashMap.Map.WriteThrough` | src/pipeline/scheme.c:1124-1125 | A write through a pointer into an occupied bucket rebinds the key that the bucket holds, and changes nothing else |
| `HashMap.Map.DeleteWithHash` | src/common/hashmap.c:383-424 | The map loses exactly the key, which is returned, whether or not the optional shrink gets memory; the number of buckets is halved if and only if it is above the capacity, at most 10% full, and there is memory |
| `HashMap.Map.Clear` | src/common/hashmap.c:215-233 | The map is empty and valid, at the present or the initial size, even when the smaller buffer cannot be allocated |
| `HashMap.Map.Scan` | src/common/hashmap.c:461-471 | The items are visited in bucket order up to the first refusal, and the answer says whether there was none |
| `HashMap.Map.Iter` | src/common/hashmap.c:491-502 | Each call yields the next item of the iteration and where to resume, or its end |
| `HashMap.EachItemOnce` | src/common/hashmap.c:461-502 | The full iteration meets every item of the map, only those, and no key twice |
| `Sizing.SetKeepsShape` | src/common/hashmap.c:287-293 | After any set the table is a power of two, at least the capacity, and filled at most to the growth threshold |
| `Sizing.DeleteKeepsShape` | src/common/hashmap.c:410-420 | After any deletion, with or without a shrink, the table is again a power of two, at least the capacity, and filled at most to the growth threshold |
| `Sizing.AmortisedResizing` | src/common/hashmap.c:282-424 | From a new map with the default grow power, over every run of sets and deletions, with any resizes failing, at most two entries are moved for each operation |
| `SpanPointers.AddedInPlace` | src/pipeline/scheme.c:904-916 | A new name without a resize: the pointers of all parts still point to their spans if and only if they did before and the name finds an empty bucket first; a pointer left behind never becomes right again |
| `SpanPointers.ApartSettle` | src/pipeline/scheme.c:904-916 | Names with different home buckets never displace each other, in any number |
| `SpanPointers.CrowdedNames` | src/pipeline/scheme.c:904-916 | Two names with home 8 around one with home 9 displace the latter |
| `SipHash.ShippedHomes` | src/common/hashmap.c:541-627 | Under the hash of the code the five span names of the shipped configuration have five different homes among sixteen buckets |
| `SipHash.CrowdedHomes` | src/common/hashmap.c:541-627 | Under the hash of the code "bbm" and "spare" have home 8, and "ecc" has home 9 |
| `LayoutBuilder.FindOrAdd` | src/pipeline/scheme.c:852-922 | The span of the name, new ones with the count as index and no length, and a pointer to the bucket it is in; when the buckets are replaced |
| `LayoutBuilder.PlaceParts` | src/pipeline/scheme.c:1010-1069 | The first refused part decides the error; otherwise every part has the index of its span's name, counted by first appearance, and a pointer to its span |
| `LayoutBuilder.NamingMeans` | src/pipeline/scheme.c:1040-1052 | After the first loop every part's pointer is still that of its span if and only if there are at most nine names and none displaces another |
| `Layout.NamesCount` | src/pipeline/scheme.c:900-902 | Span indices are below the number of spans, and no two names share one |
| `Layout.SpanNameExactly` | src/pipeline/scheme.c:812-850 | A span name is accepted if and only if it is not empty and has only letters, digits and the twelve characters `!@#$^&*()+-_` |
| `Layout.PartRefused` | src/pipeline/scheme.c:938-944 | A part is refused if and only if its end, added in 64 bits, is past the page or its name is not accepted; the range is looked at first |
| `Layout.FirstErrorExactly` | src/pipeline/scheme.c:1010-1050 | The error is that of the first part that is refused |
| `LayoutBuilder.GatherParts` | src/pipeline/scheme.c:1092-1135 | In place, through the pointers: accepts exactly the sorted lists whose neighbours do not overlap and whose parts all still point to their spans; each part then begins in its span where the earlier parts of the span end, and the totals are the sums |
| `LayoutBuilder.AddParts` | src/pipeline/scheme.c:946-1157 | For every sort and every hash: a layout is built if and only if no part is refused, neighbours do not overlap, all names stay in their buckets and none is named by empty parts only; which refusal otherwise; with names that stay it aborts if and only if nothing is refused and some span is named by empty parts only; with names that do not stay, and nothing refused, a pointer that was left behind is used |
| `LayoutCases.TenNames` | src/pipeline/scheme.c:1107-1125 | Ten disjoint parts with ten names pass all checks and have parts left behind, under every sort and every hash |
| `LayoutCases.GrowsForTenth` | src/common/hashmap.c:287-293 | The tenth name makes the map of sixteen buckets grow |
| `LayoutCases.ThreeNames` | src/pipeline/scheme.c:1107-1125 | Disjoint parts named "bbm", "ecc" and "spare" pass all checks and have a part left behind, under every sort and the hash of the code |
| `LayoutCases.EmptyPart` | src/pipeline/scheme.c:924-936 | A layout of one empty part aborts, under every sort and every hash |
| `Layout.EmptyExactly` | src/pipeline/scheme.c:1123-1125 | A span has length zero if and only if all its parts have |
| `Layout.EmptyByName` | src/pipeline/scheme.c:924-936 | With lengths gathered into the spans that the parts name, as in every built layout, some span is empty if and only if the configuration names one by empty parts only |
| `LayoutProperties.AdjacentSuffices` | src/pipeline/scheme.c:801-810 | Comparing neighbours is as good as comparing all pairs |
| `LayoutProperties.AcceptedExactly` | src/pipeline/scheme.c:1010-1105 | With no empty part, a layout is accepted if and only if its parts lie in the page, name valid spans and share no byte, whatever the order of the configuration |
| `LayoutProperties.EverySortPasses` | src/pipeline/scheme.c:1071-1105 | With empty parts: the overlap check passes for every order qsort may give to equal starts if and only if the parts are separate and no empty part starts where one with bytes does |
| `LayoutProperties.EmptyPartOrderMatters` | src/pipeline/scheme.c:776-793 | Two parts that one order of equal starts accepts and the other refuses, although the design note says that parts are never empty |
| `LayoutProperties.EmptyPartAborts` | src/pipeline/scheme.c:924-936 | One empty part passes all checks under every sort, and its span has no other part |
| `LayoutProperties.SortIsUnique` | src/pipeline/scheme.c:776-793 | Parts that start at different bytes can be sorted in one way only |
| `LayoutProperties.BuiltIsValid` | src/pipeline/scheme.c:1092-1135 | What is accepted is a valid layout: parts in order, inside the page, gathered into their spans |
| `LayoutProperties.SpanFits` | src/pipeline/scheme.c:1124-1125 | No span is longer than the page, so the sum of lengths does not wrap |
| `LayoutProperties.Bijection` | src/pipeline/scheme.c:1123-1125 | Covered page bytes and span bytes correspond one to one: the in-span ranges tile every span |
| `PageCopy.ComposePage` | src/pipeline/queues.c:51-71 | In place: the page becomes the composition of the spans, and the spans stay |
| `PageCopy.ExtractPage` | src/pipeline/queues.c:101-118 | In place: the spans become the extraction of the page, and the page stays |
| `PageCopy.CompositionIsMap` | src/pipeline/queues.c:51-71 | Every page byte of a composition is the span byte that maps to it, and the byte 0xFF where none does |
| `PageCopy.ExtractionIsMap` | src/pipeline/queues.c:101-118 | Every span byte of an extraction is the page byte that maps to it, whatever the span held before |
| `PageCopy.ExtractComposed` | src/pipeline/queues.c:51-118 | Extracting a composed page gives back every span, for every valid layout |
| `PageCopy.ComposeExtracted` | src/pipeline/queues.c:51-118 | Composing an extracted page reproduces every covered byte and puts 0xFF into every hole |
| `Pipelines.AddReadCodec` | src/pipeline/scheme.c:508-595 | A Hamming decoder is accepted if and only if both spans are named and every step that begins inside the data has room for its code, and gets exactly its two ranges; which error otherwise; the range errors set on the way are overwritten |
| `Pipelines.AddWriteCodec` | src/pipeline/scheme.c:597-684 | A Hamming encoder is accepted if and only if both spans are named and every step that begins inside the source has room for its code, any other codec if and only if its span is; the ranges they get; which error otherwise; range errors are overwritten here too |
| `Pipelines.RangesAreNotChecked` | src/pipeline/scheme.c:546-570 | Acceptance depends neither on where the two ranges of a codec start nor on how long the spans are |
| `Pipelines.RangeOutsideSpanAccepted` | src/pipeline/scheme.c:566-592 | A codec on 256 bytes of a span of sixteen is accepted, for reading and for writing |
| `Pipelines.RangeCheckMeans` | src/pipeline/page_layout.c:9-16 | The check whose result is lost holds if and only if the range lies in its span |
| `Requests.ReadFitsExactly` | src/pipeline/codecs/linux-ecc-hamming.c:728-783 | An accepted decoder stays inside all spans that hold its ranges if and only if its steps fit the data range, or, when both ranges are in one span, the end of the later one |
| `Requests.AcceptedReadFits` | src/pipeline/scheme.c:508-595 | On spans that hold its ranges, an accepted codec of the read chain whose steps fit the data range stays inside the span buffers, in its context |
| `Requests.WriteFitsExactly` | src/pipeline/codecs/linux-ecc-hamming.c:679-726 | An accepted encoder stays inside all spans that hold its ranges if and only if its source is a whole number of steps, or, when both ranges are in one span, its last block ends before the later one does |
| `Requests.AcceptedWriteFits` | src/pipeline/scheme.c:597-684 | On spans that hold its ranges, an accepted codec of the write chain whose source is a whole number of steps stays inside the span buffers, in its context |
| `Requests.StepsLeaveSpans` | src/pipeline/codecs/linux-ecc-hamming.c:754-780 | An accepted decoder of eight steps on one block, both ranges in their spans, runs off both buffers |
| `Requests.PartialBlockLeavesSpan` | src/pipeline/codecs/linux-ecc-hamming.c:703-721 | An accepted encoder of a hundred bytes, both ranges in their spans, reads past the end of the source |
| `Requests.RequestsFitExactly` | src/pipeline/queues.c:23-46 | Every request that the assertions admit fits its spans if and only if they are as long as the data and the out-of-band part of the page |
| `Creation.AddReadCodecs` | src/pipeline/scheme.c:686-729 | The contexts of all read codecs in order, or exactly the error of the first that is refused |
| `Creation.AddWriteCodecs` | src/pipeline/scheme.c:731-774 | The contexts of all write codecs in order, or exactly the error of the first that is refused |
| `Creation.Create` | src/pipeline/scheme.c:1199-1278 | A pipeline is created if and only if its layout is built, which includes that all span names stay in their buckets, and its mappings and codecs are acceptable; it then has exactly the spans and codecs configured; with a layout, a missing span of a mapping is the error, then the first refused read codec's, then the first refused write codec's |
| `Partitions.NothingRefusedExactly` | src/pipeline/scheme.c:1388-1478 | No partition is refused if and only if every pipeline that is named exists, no two partitions have the same name, and no record that is looked at ends past 64 bits |
| `Partitions.AddPartitions` | src/pipeline/scheme.c:1430-1478 | All partitions as configured if and only if every pipeline that is named exists, no two partitions have the same name, and no record that is looked at, the one before each partition, ends past 64 bits; the first that is refused, and why, otherwise |
| `Partitions.RefusedForOverflow` | src/pipeline/scheme.c:1408-1420 | Parsed ranges never overflow, and yet a configuration is refused for overflow if and only if what the record held before the first partition does |
| `Partitions.LeftoverRefuses` | src/pipeline/scheme.c:1408-1420 | The same configuration of one page is refused for one leftover record and not for another |
| `Partitions.FixPartitions` | src/pipeline/scheme.c:1515-1528 | All partitions are accepted, with left-out lengths filled in, or the first that is not ends the check |
| `Partitions.RangeCheckExactly` | src/pipeline/scheme.c:1480-1507 | Which partitions are accepted, in numbers; an accepted one lies on the device if and only if its pages end inside the eraseblock; one that lies on the device is accepted if and only if the start of its eraseblocks plus its number of pages is at most the number of eraseblocks |
| `Partitions.PagesBeyondEraseblock` | src/pipeline/scheme.c:1498-1504 | A hundred pages in eraseblocks of 64 are accepted |
| `Partitions.WholeDeviceRefused` | src/pipeline/scheme.c:1498-1500 | One partition for a whole device with fewer eraseblocks than pages in one is refused |
| `Demux.CellsDiffer` | src/pipeline/scheme.c:1697-1703 | Stride times eraseblock plus page gives no two pages the same entry |
| `Demux.InTableExactly` | src/pipeline/scheme.c:1719-1731 | All entries of a partition are inside the table if and only if that of its last page is |
| `Demux.AcceptedInTable` | src/pipeline/scheme.c:1480-1507 | The same for what the range checks accept and leave |
| `Demux.EntryPastTable` | src/pipeline/scheme.c:1719-1731 | An accepted partition of one page whose entry is the first past the end of the table |
| `Demux.MarkPages` | src/pipeline/scheme.c:1705-1735 | Succeeds if and only if all entries are inside the table, free, and different from each other; then exactly these are set |
| `Demux.FillPages` | src/pipeline/scheme.c:1737-1785 | Succeeds if and only if all entries are inside the table and every page of every partition has an entry of its own; then each holds its partition's pipeline and the rest is zero |
| `Demux.ApartOnDevice` | src/pipeline/scheme.c:1719-1731 | For partitions on the device, entries of their own means that no page lies in two of them |
| `Selector.MarkBlocks` | src/pipeline/scheme.c:1639-1657 | Succeeds exactly when all eraseblocks of the partition are free, and then sets those and no others |
| `Selector.FillBlocks` | src/pipeline/scheme.c:1659-1695 | With whole eraseblocks only, the table of eraseblocks is built if and only if the partitions are disjoint |
| `Selector.Initialize` | src/pipeline/scheme.c:1787-1832 | When a selector is built, and why not otherwise, for all checked partitions; one pipeline for all exactly when the only partition is the whole device, a table of eraseblocks when all have whole ones, refused for its size exactly when a page table is needed and has more than 2^64 - 1 entries; every page is then given to its owner if and only if all partitions lie on the device |
| `Selector.SelectableOnDevice` | src/pipeline/scheme.c:1787-1832 | For partitions on the device a selector is built if and only if they are disjoint and a page table, if needed, is not too large |
| `Selector.StrategiesAgree` | src/pipeline/scheme.c:1581-1703 | Wherever more than one strategy applies, the single pipeline, the table of eraseblocks and the table of pages select the same for every page |
| `Selector.OwnerIsUnique` | src/pipeline/scheme.c:1632-1703 | The selected pipeline is that of the one partition containing the page, or the automatic NACK when none does |
| `Selector.OrderDoesNotMatter` | src/pipeline/scheme.c:1676-1682 | Wherever the partitions lie, neither whether a selector is built nor any selection depends on the order in which the hash map is scanned |
| `Selector.HashMapScans` | src/pipeline/scheme.c:1764-1770 | A scan of the partitions' hash map lists every partition once |
| `Selector.Spills` | src/pipeline/scheme.c:1719-1731 | A partition whose pages leave their eraseblock has an entry of a page of the device that it does not contain |
| `Selector.PagesServe` | src/pipeline/scheme.c:1737-1785 | A filled table of pages serves the device if and only if every partition's pages end inside their eraseblock |
| `Queues.MemsetWrite` | src/pipeline/codecs/memset.c:33-52 | In place: the destination range is the pattern, and nothing else changes |
| `Queues.WriteProcess` | src/pipeline/queues.c:161-215 | In place, once the pipeline is chosen: reply, spans and page of a write, including the missing write mapping and a codec that does not acknowledge, which leave the page alone |
| `Queues.ReadProcess` | src/pipeline/queues.c:229-275 | In place, once the pipeline is chosen: reply, spans and page of a read; when a codec does not acknowledge the page is left alone |
| `EndToEnd.TakenBytes` | src/pipeline/queues.c:26-46 | Data and out-of-band bytes of a request arrive at the start of their spans; mapped to one span, the latter overwrite the former |
| `EndToEnd.GivenBytes` | src/pipeline/queues.c:76-96 | The result page has the data at its start, the out-of-band bytes where those begin, and zeros elsewhere |
| `RoundTrip.WriteProtects` | src/pipeline/queues.c:177-204 | After any prefix of a write chain with one encoder and memsets elsewhere, the data is untouched and, once the encoder ran, every block is protected |
| `RequestBytes.WriteVerdict` | src/pipeline/queues.c:161-215 | A write is acknowledged if and only if its pipeline has a write mapping and every codec of it is a memset or an encoder with room for its codes; without the mapping the answer is errno 5, otherwise -1, and the page is left alone |
| `RequestBytes.StoredByte` | src/pipeline/queues.c:51-71 | Every byte of an acknowledged page is the span byte that maps to it, and 0xFF where none does |
| `RequestBytes.FilledByte` | src/pipeline/codecs/memset.c:33-52 | Every byte of an acknowledged page that a memset writes, and no later codec, is its pattern |
| `RequestBytes.RequestedByte` | src/pipeline/queues.c:26-46 | Every byte of an acknowledged page that no codec writes is the data or out-of-band byte of the request that maps to it, or, beyond the request, what the span held before |
| `RequestBytes.EncodedBytes` | src/pipeline/codecs/linux-ecc-hamming.c:679-726 | The three bytes of a code that no later codec writes are the code of their block as it is stored, in any chain |
| `RequestBytes.ReadByte` | src/pipeline/queues.c:101-118 | After a read, every span byte that no decoder covers is the page byte that maps to it |
| `RequestBytes.ReadReturns` | src/pipeline/queues.c:229-275 | An acknowledged read returns the data span at the start of the page, the out-of-band span where the out-of-band bytes begin, zeros elsewhere, and the lengths asked for; a refused one returns errno -1 and the page as it was |
| `RequestBytes.ReadNeedsDecoders` | src/pipeline/queues.c:238-261 | A read is acknowledged only if every codec decodes and has room for the codes of its range |
| `RequestBytes.OobSurvives` | src/pipeline/queues.c:161-275 | An out-of-band byte that no codec writes or repairs comes back from a write and a read, if it is not damaged on the page |
| `RoundTrip.HistoryDoesNotMatter` | src/pipeline/queues.c:217-275 | After any sequence of reads and writes on the same spans, a read gives the same reply, page and spans as on any other span buffers |
| `RoundTrip.ReadVerdict` | src/pipeline/queues.c:238-261 | A read is acknowledged if and only if no decoded step has a double error, and otherwise the page is left alone |
| `EndToEnd.DataSurvives` | src/pipeline/queues.c:161-275 | In one pipeline: write, any damage with at most one flipped bit in the bytes of each decoded step and none in unprotected data, read: both are acknowledged, exactly the written data is returned, and so is every undamaged out-of-band byte that no codec touches |
| `SchemeBuilder.InitializePipelines` | src/pipeline/scheme.c:1280-1366 | All pipelines are created, numbered from 1 and found by name if and only if there is at least one and at most 65534, each can be created and no two share a name |
| `SchemeBuilder.ScanOrder` | src/pipeline/scheme.c:1430-1513 | The partitions put into a hash map one after the other and scanned: each once, in some order, under every hash |
| `SchemeBuilder.InitializePartitions` | src/pipeline/scheme.c:1530-1579 | Succeeds if and only if there is a partition, every pipeline named exists, no two names are equal, no record looked at ends past 64 bits, and all ranges are accepted; the scan then lists the fixed partitions, each once; the error otherwise |
| `SchemeBuilder.Build` | src/pipeline/scheme.c:1843-1908 | From any configuration, for every order of the scan: a scheme is built if and only if pipelines and partitions are acceptable and the partitions selectable; it has the created pipelines behind the automatic NACK at index 0, and serves the device if and only if all partitions lie on it; which of the three steps failed otherwise |
| `Schemes.Write` | src/pipeline/queues.c:146-215 | In place: a write goes through the pipeline selected for its page |
| `Schemes.Read` | src/pipeline/queues.c:217-275 | In place: a read goes through the pipeline selected for its page |
| `Schemes.GoesToOwner` | src/pipeline/queues.c:120-144 | Requests to a page of a partition go through that partition's pipeline |
| `Schemes.UnownedPageIsRefused` | src/pipeline/scheme.c:109-203 | For a page in no partition every write is answered with EIO and every read with an error, and the page is left alone |
| `Schemes.DataSurvivesAt` | src/pipeline/queues.c:120-275 | For every page of every partition whose pipeline guards its data: what is written to it, data and untouched out-of-band bytes, comes back from it, under the damage above |
| `DeviceRuns.AlwaysKept` | src/pipeline/queues.c:146-275 | In every run, the raw page at any time is the one its last write stored, with the damage since then: requests to other pages, reads and other workers leave it alone |
| `DeviceRuns.OtherLength` | src/pipeline/queues.c:238-275 | How many bytes a read asks for changes neither its verdict nor the bytes it returns |
| `DeviceRuns.WritesAreAcknowledged` | src/pipeline/queues.c:146-215 | In every run, every write to a page whose pipeline guards its data is acknowledged |
| `DeviceRuns.ReadsReturnLastWrites` | src/pipeline/queues.c:146-275 | In every run of writes, reads and damage, to any pages, of any lengths and by any workers, every read of a guarded page is acknowledged and returns the data last written to it, if since that write no decoded step has more than one flipped bit and data that no step protects is unharmed; and the out-of-band bytes of that write that no codec touches and no damage hits |
| `NandBbmPages.CreateConfigured` | configs/linux-ecc-hamming-nand.json:29-108 | The first shipped pipeline is what its configuration creates, under every sort and every hash under which its names stay; otherwise a part is left behind |
| `NandBbmPages.NamesStay` | configs/linux-ecc-hamming-nand.json:29-108 | Under the hash of the code they stay |
| `NandBbmPages.FullRequestDoesNotFit` | src/pipeline/queues.c:23-46 | In the first shipped pipeline an admitted request of 64 out-of-band bytes does not fit its span of 48 |
| `NandBbmPages.StoredPage` | configs/linux-ecc-hamming-nand.json:29-108 | What a write through the first shipped pipeline stores: its data from byte 0, 0xFF in bytes 2048 and 2049, its out-of-band bytes from the 24th on at byte 2074 and after |
| `NandBbmPages.StoredCodes` | configs/linux-ecc-hamming-nand.json:29-108 | And the codes of the eight blocks as stored, from byte 2050 |
| `NandBbmPages.PageSurvives` | configs/linux-ecc-hamming-nand.json:29-108 | The main theorem for the first shipped pipeline, where all data is protected; undamaged out-of-band bytes from the 24th on come back too |
| `NandOtherPages.CreateConfigured` | configs/linux-ecc-hamming-nand.json:109-180 | The second shipped pipeline, whose out-of-band span is gathered from two parts, is what its configuration creates, under every sort and every hash under which its names stay |
| `NandOtherPages.NamesStay` | configs/linux-ecc-hamming-nand.json:109-180 | Under the hash of the code they stay |
| `NandOtherPages.FullRequestDoesNotFit` | src/pipeline/queues.c:23-46 | In the second shipped pipeline an admitted request of 64 out-of-band bytes does not fit its span of 60 |
| `NandOtherPages.StoredPage` | configs/linux-ecc-hamming-nand.json:109-180 | What a write through the second shipped pipeline stores: its data from byte 0, its out-of-band bytes from the 24th on at byte 2072 to 2097 and from byte 2102 |
| `NandOtherPages.StoredCodes` | configs/linux-ecc-hamming-nand.json:109-180 | And the codes of the eight blocks as stored, from byte 2048 |
| `NandOtherPages.PageSurvives` | configs/linux-ecc-hamming-nand.json:109-180 | The main theorem for the second shipped pipeline; undamaged out-of-band bytes from the 24th on come back too |
| `NandScheme.BuildConfigured` | configs/linux-ecc-hamming-nand.json:182-206 | On a device of 1024 eraseblocks with 64 pages the shipped configuration builds a scheme that serves every page, under every sort and every order of the scan, if and only if its names stay and the leftover record of the first partition does not overflow |
| `NandScheme.ShippedNamesStay` | configs/linux-ecc-hamming-nand.json:29-180 | Under the hash of the code no span name of the shipped configuration leaves its bucket |
| `NandScheme.EveryPageSurvives` | configs/linux-ecc-hamming-nand.json:1-206 | With the shipped configuration, what is written to any page of that device comes back from it, data and undamaged out-of-band bytes from the 24th on, if no block and its code have more than one flipped bit |
| `NandScheme.EveryRunKeepsData` | configs/linux-ecc-hamming-nand.json:1-206 | With the shipped configuration, in every run of writes, reads and damage of that device, every read returns the data last written to its page, if no block and its code ever have more than one flipped bit, and the undamaged out-of-band bytes of that write from the 24th on |

## Left out

- JSON parsing, configuration objects, parameter handling, printing and logging; the ranges a configuration can hold are modelled (`Configured`, `Parsed`).
- The proxy device, ioctls, shared memory, threads and signals; every worker has its own scheme. The header of a request is a parameter, and the assertions on it are preconditions.
- Allocation and teardown order. An allocation is a parameter in the hash map; in the layout, pipelines and selector it always succeeds.
- Murmur and xxHash: a hash map works with any hash function, and only SipHash is used.
- A hash map without a comparison function, where equal hashes count as equal keys; the `elfree` callback; load factors other than the default 60%, and the floating-point product, which for a power of two has the same floor as the integer one.
- Sizes beyond 64 bits in the hash map, where the bucket count would wrap; distances in tables of more than 65536 buckets, where a 16-bit field might not hold one.
- Resizing overwrites the old buckets while it empties them; the model reads them, since the old table is freed afterwards.
- What the code does with a span pointer that was left behind: the model answers `Strayed`.
- The codecs of a configuration: a pipeline refers to its codecs directly, not by name.
- The XOR codec, of which `xor_read` does not advance its mask index; BCH and Reed-Solomon codecs, which the repository does not have.
- What the codecs return besides success: all failures give the same errno.
- The automatic NACK pipeline's own buffers; its codec, which never acknowledges, is modelled.
- Demux.MarkPages: stops at the first entry past the end of the table; what the code overwrites there is not modelled.
- Selector.Initialize: leaves out that an entry number may wrap at 64 bits, which takes a table larger than any memory.
- HammingCodec.Encode: requires that the last block lies inside the source span; what the code reads past a span is not modelled, and `HammingCodec.WholeBlocks` and `Requests.WriteFitsExactly` say exactly when it does not happen.
- HammingCodec.DecodeRange: requires that the configured steps stay inside the spans; `HammingCodec.CheckBoundsDecodeExactly` and `Requests.ReadFitsExactly` say exactly when they do.
- Queues.WriteProcess: requires that the request fits its spans, and the codecs theirs; what the code does beyond a buffer is not modelled, and `Requests.RequestsFitExactly` says when all requests fit.
- Queues.ReadProcess: the same for reading.
- Schemes.Write: the same, behind the selector.
- Schemes.Read: the same, behind the selector.
- HashMap.Map.constructor: a failed allocation is the matter of `HashMap.New`.
- The device behind the shipped configuration is taken to have 1024 eraseblocks with 64 pages, the numbers its partitions cover.
- EndToEnd.DataSurvives: covers chains of one encoder, memsets elsewhere and one decoder; other chains are covered by the step-by-step results.
