# Verified models of the MASQ IP-country index, DNS modifier and configuration merging

This project models three parts of the MASQ repository in Dafny and proves what they promise.

**The IP-to-country index** (`ip_country`). Country blocks, which are ranges of addresses with a
country, are written as differences between start addresses into a stream of bits. The stream goes
through a hand-written bit queue, is drained into 64-bit words, loaded again, decoded lazily and then
searched. The main theorem follows a database from its items to the answer for an address:
`Parser.Parse` with `Parser.ParsedAnswers`, and below it `EndToEnd.Build` with
`EndToEnd.FinderAnswers`. `Parser.AnswerForCode` and `Parser.AnswerWithoutCode` say it in the fields of
the items alone. They rest on:

- the bit queue being a FIFO of bits in every state it can reach (`BitQueue.dfy`);
- addresses, their segments and their octets being in one-to-one correspondence, and stepping by one
  being invertible across the wrap-around (`Addresses.dfy`);
- a record being read back from its bits whatever follows it, and a stream decoding to one block per
  record, also when it is cut short (`BlockFormat.dfy`), and where each field of a record is
  (`RecordLayout.dfy`);
- the gap-filled list covering the address space exactly once and meaning what the input means
  (`Tilings.dfy`);
- the serializer, the word packing and the deserializer doing what these definitions say
  (`Serializer.dfy`, `Words.dfy`, `Deserializer.dfy`);
- binary search agreeing with a linear scan (`Finder.dfy`), the table of countries
  (`CountryTables.dfy`) and the coalescing of ranges (`Coalescing.dfy`).

**The Windows DNS modifier** (`dns_utility`). `DnsModifier.dfy` changes a registry one value at a
time; the environment decides which of the two changes that a call makes to an interface fails.
`Dns.dfy` says what a call does, on lists of servers as `NameServers.dfy` has them. `DnsOutcomes.dfy`
proves, from any registry and under any faults, when a call succeeds and what every interface holds
afterwards, in terms of lists and gateways alone. `DnsRuns.dfy` proves, over every sequence of calls with arbitrary
faults from a registry without backups, that no name-server list is lost. `DnsAnyRegistry.dfy` takes any
registry, with backups left over or lists gone missing. It proves exactly when a failing call leaves
everything as it was, and exactly which interfaces can lose a list.

**Configuration merging** (`masq_lib`). `MultiConfig.dfy` covers parsing and printing virtual command
lines and merging them by priority.

## How things are modelled

- Machine words are natural numbers. Shifts, `|`, `&` and truncation are defined bit by bit in
  `Bits.dfy`; the 64-bit and 8-bit shifts require a shift below the width, so an oversized shift would
  be a failed proof. The `panic!`s of the bit queue appear as preconditions of its helpers or as
  assertions, all discharged.
- An address is the integer it stands for. Its segments and octets are that integer's digits, most
  significant first. Everything is generic in the version, which fixes the number and width of
  segments: four of 8 bits, or eight of 16 bits.
- `add_bits` never masks its data (`ip_country/src/bit_queue.rs:128`). Data above the announced bit
  count stays in the blank bits of the back byte and is or-ed into the bits of the next call. `AddBits`
  takes such data and says exactly what becomes of it; `DirtyDataLeaks` is a concrete case. Every caller
  that adds again afterwards is shown to leave nothing there.
- `Option` results stand for the source's `Option`s and `Result`s. A precondition stands for a panic
  that the source leaves to its callers, such as an empty bit queue handed to the deserializer.

## Where the code and its comments differ

The model follows the code.

- The comment at `ip_country/src/bit_queue.rs:9` calls the low-order bits of the front byte unused. The
  code shifts the front byte right, so the live bits are the low-order ones.
- The format description at `ip_country/src/country_block_serde.rs:30-32` has the deserializer invent
  the leading block. The serializer does it.

## Results about the source worth knowing

- The byte deque of the bit queue can shrink to one byte; the invariant is that this byte is then
  spent and nothing is left behind it.
- Looking up "ZZ" gives the sentinel exactly if the pairs had at most one sentinel
  (`CountryTables.SentinelLookup`), and a country is found by its own code exactly if that code is in
  upper case and no later country shares it (`CountryTables.FoundByOwnCode`).
- The finder's table is not the parser's: the list of countries is written out and a table is made from
  it again. The numbers stored with the blocks stay right because that gives the same table
  (`CountryTables.TableReloads`).
- If a code comes with several names, the answer has the name that the set of pairs enumerated last
  (`Parser.AnswerIsLast`, `Parser.AnswerHasName`). A code that is not in upper case is never answered
  with itself (`Parser.AnswerHasCode`).
- A failing `subvert` deletes the backup of every interface it has passed, including backups from before
  the call. From any registry it leaves everything as it was, whatever fails, exactly if no interface
  with a backup is itself still to be subverted or comes before one that is, except behind one that is
  always refused (`DnsAnyRegistry.SubvertAtomicIffSafe`). Two concrete failures are
  `DnsAnyRegistry.FailedSubvertCanDisturb`, which un-subverts an interface, and
  `DnsAnyRegistry.FailedSubvertCanLose`, which destroys a backup left beside a list in use.
- A failing `revert` leaves the registry as it was in every state that calls can lead to from a registry
  without backups. From other registries it does so, whatever fails, exactly under the condition of
  `DnsAnyRegistry.RevertAtomicIffSafe`. An interface whose name-server list has gone missing fails it:
  its backup is deleted, and the roll-back does not bring it back (`DnsAnyRegistry.FailedRevertCanLose`).
- An interface keeps every list that is not the local server's through every sequence of calls exactly
  if, at the start, it has no backup, or its list is the local server's or the same as its backup, or its
  list is missing and its backup the local server's (`DnsAnyRegistry.NothingLostIffClean`). Otherwise even
  a successful `revert` loses one.
- Printing and re-parsing a virtual command line gives it back exactly if every name starts with `--`
  and no value does (`MultiConfig.ParsePrinted`).

## Model

| member | source | states |
|---|---|---|
| BitQueues.BitQueue.constructor | ip_country/src/bit_queue.rs:19-26 | a new queue is valid, holds no bits and has nothing in its blank bits |
| BitQueues.BitQueue.Len | ip_country/src/bit_queue.rs:28-30 | the computed length is the number of bits held, and never underflows |
| BitQueues.BitQueue.IsEmpty | ip_country/src/bit_queue.rs:32-34 | true exactly when no bits are held |
| BitQueues.BitQueue.AddBits | ip_country/src/bit_queue.rs:37-56 | from any valid state and for any data, appends the low-order bits or-ed with what was in the blank bits; the higher bits of the data that fit stay in the blank bits; with nothing there and data that fits, appends exactly the data and leaves nothing; all bits are placed and no shift is oversized |
| BitQueues.BitQueue.TakeBits | ip_country/src/bit_queue.rs:59-103 | None exactly if too few bits are held, and then nothing changes; else the first bits come out as a number that fits and the rest stays in order; what is in the blank bits stays or goes altogether |
| BitQueues.DirtyDataLeaks | ip_country/src/bit_queue.rs:117-135 | one bit of 3 followed by one bit of 0 comes out as 3 |
| BitQueues.BitQueue.AddSomeBackBits | ip_country/src/bit_queue.rs:117-135 | appends as many bits as fit in the back byte, or-ed with what was in its blank bits, and says what is in them afterwards; a byte that is filled is followed by an empty one |
| BitQueues.BitQueue.PushEmptyBack | ip_country/src/bit_queue.rs:130-133 | a fresh back byte behind a full one changes no bits held |
| BitQueues.BitQueue.AddBackBytes | ip_country/src/bit_queue.rs:137-165 | appends all whole bytes of the data, leaving fewer than eight bits over |
| BitQueues.BitQueue.TakeSomeFrontBits | ip_country/src/bit_queue.rs:167-192 | what comes out and what stays make up what was held; stops short only when the front byte is spent |
| BitQueues.BitQueue.PopSpentFront | ip_country/src/bit_queue.rs:187-190 | dropping a spent front byte changes no bits held |
| BitQueues.BitQueue.TakeFrontBytes | ip_country/src/bit_queue.rs:194-229 | takes whole bytes off the front, never demanding one that is not there, also down to the one-byte deque |
| BitQueues.BitQueue.TakeSomeBackBits | ip_country/src/bit_queue.rs:231-251 | takes the last few bits from the back byte once nothing is left in front of it |
| Bits.LowOrderOnesAreOnes | ip_country/src/bit_queue.rs:113-115 | the mask has exactly the low-order bits set |
| BitQueues.PlaceBehind | ip_country/src/bit_queue.rs:122-129 | shifting and or-ing any data into a partial byte puts its bits, or-ed with the blank ones, behind those already there |
| BitQueues.PlacedTwice | ip_country/src/bit_queue.rs:37-56 | or-ing the same left-over data in again, as the last step of adding does, changes nothing |
| BitQueues.TakeLowBits | ip_country/src/bit_queue.rs:180-185 | masking and shifting splits a byte's live bits in two |
| BitQueues.Gather | ip_country/src/bit_queue.rs:74-93 | a chunk shifted to its position and or-ed in extends the bits gathered so far |
| QueueRuns.Run | ip_country/src/bit_queue.rs:28-103 | the results of every sequence of legal calls are those of a plain FIFO of bits |
| Addresses.IntegerFromIp | ip_country/src/country_block_serde.rs:409-423 | folding the octets loses nothing and gives the integer of the address |
| Addresses.PlusOneIp | ip_country/src/country_block_serde.rs:383-387 | the next address, wrapping from the last to 0 |
| Addresses.MinusOneIp | ip_country/src/country_block_serde.rs:388-392 | the previous address, wrapping from 0 to the last |
| Addresses.StepsAreInverse | ip_country/src/country_block_serde.rs:382-407 | the two steps undo each other everywhere |
| Addresses.SegmentsBijection | ip_country/src/country_block_serde.rs:358-380 | segment arrays and addresses determine each other |
| Addresses.DifferentSegments | ip_country/src/country_block_serde.rs:305-322 | addresses differ exactly if some segment differs |
| Addresses.DigitsArePositional | ip_country/src/country_block_serde.rs:418-421 | a further octet multiplies what stands before it by the base and adds itself |
| Addresses.DottedQuad | ip_country/src/country_block_serde.rs:358-362 | the segments of a version-4 address are its dotted notation |
| Addresses.EightSegments | ip_country/src/country_block_serde.rs:364-368 | the segments of a version-6 address are the eight groups of its notation |
| BlockFormat.DifferencesLeadToTarget | ip_country/src/country_block_serde.rs:305-322 | differences fit their fields, exist exactly if the addresses differ, and applied to the one address give the other |
| BlockFormat.ApplyKeepsSegmentsValid | ip_country/src/country_block_serde.rs:661-675 | segments stay in range whatever valid differences are applied, so the conversion cannot fail |
| BlockFormat.ReadDifferencesCount | ip_country/src/country_block_serde.rs:602-616 | all differences are read exactly if there are bits enough for all, although failed attempts are skipped over |
| BlockFormat.ReadRecordProgress | ip_country/src/country_block_serde.rs:548-564 | a record read from any bits is a real address and takes 21 to 51 bits off (31 to 164 for version 6) |
| BlockFormat.ReadEncodedRecord | ip_country/src/country_block_serde.rs:267-276 | reading a record's bits followed by anything gives the record and leaves exactly what follows |
| BlockFormat.CutRecordIsUnreadable | ip_country/src/country_block_serde.rs:553-558 | no proper prefix of a record's bits reads as a record |
| BlockFormat.EncodeLength | ip_country/src/country_block_serde.rs:267-276 | every record costs between 21 and 51 bits (31 and 164) |
| BlockFormat.DecodeEncoded | ip_country/src/country_block_serde.rs:566-600 | an encoded stream decodes to one block per record, each ending where the next begins |
| BlockFormat.DecodeTruncated | ip_country/src/country_block_serde.rs:570-598 | a stream cut inside a later record decodes to the records before the cut, the last one reaching to the end |
| BlockFormat.DecodeLength | ip_country/src/country_block_serde.rs:566-600 | any bits at all decode to at most one block per 21 bits (31) |
| RecordLayout.DifferencesAreExact | ip_country/src/country_block_serde.rs:305-322 | a segment is named exactly if it differs, with the value it has in the target, in ascending order, and as many are named as differ |
| RecordLayout.RecordLength | ip_country/src/country_block_serde.rs:267-276 | a record takes 11 bits and 10 for each changed segment (12 and 19 for version 6) |
| RecordLayout.RecordFields | ip_country/src/country_block_serde.rs:267-276 | where in a record each of its fields is, and what number it holds |
| RecordLayout.ApplyAt | ip_country/src/country_block_serde.rs:661-675 | of several differences for a segment the last counts, and segments not named stay |
| RecordLayout.ReadAnyRecord | ip_country/src/country_block_serde.rs:548-564 | every list of valid differences with a country is read, also one that no pair of addresses gives |
| RecordLayout.InitialSegments | ip_country/src/country_block_serde.rs:158-172 | the first record is compared with the last address but one, 255.255.255.254 for version 4 |
| RecordLayout.FirstRecordNamesAll | ip_country/src/country_block_serde.rs:158-172 | what is serialized starts with a record for address 0 that names every segment and takes 51 bits (164) |
| Tilings.CountryOfContaining | ip_country/src/country_block_stream.rs:41-60 | in a well-formed list at most one block contains an address, and it gives the country |
| Tilings.TilingCovers | ip_country/src/country_block_serde.rs:256-266 | with its gaps filled a non-empty list covers the address space, each block following on the one before |
| Tilings.TilingMeaning | ip_country/src/country_block_serde.rs:256-266 | filling gaps changes the country of no address |
| Tilings.TilesAreBlocksAndGaps | ip_country/src/country_block_serde.rs:256-266 | every block is a tile, and every other tile fills a gap between blocks completely |
| Tilings.DecodeSerialized | ip_country/src/country_block_serde.rs:528-600 | decoding what was serialized gives exactly the input with every gap filled by one sentinel block; an empty list leaves nothing to decode |
| Tilings.SerializedLength | ip_country/src/country_block_serde.rs:227-280 | total bits per block lie between the bounds, and gaps at most double the blocks and add one |
| Serializer.VersionedIpSerializer.constructor | ip_country/src/country_block_serde.rs:290-303 | a new serializer stands for the empty list |
| Serializer.VersionedIpSerializer.AddIp | ip_country/src/country_block_serde.rs:247-280 | appends the bits of the block's record and of the gap's before it, if any; recursion is one deep and a difference always exists |
| Serializer.VersionedIpSerializer.WriteRecord | ip_country/src/country_block_serde.rs:267-276 | appends exactly the bits of one record, each field fitting its width |
| Serializer.VersionedIpSerializer.Add | ip_country/src/country_block_serde.rs:227-237 | keeps the state that stands for the blocks added so far |
| Serializer.VersionedIpSerializer.Finish | ip_country/src/country_block_serde.rs:187-194 | leaves the bits and the block count of the complete tiling |
| Serializer.RecordsAfterBlock | ip_country/src/country_block_serde.rs:256-266 | adding a block to the list adds exactly the serializer's records to the stream |
| Serializer.CountryBlockSerializer.constructor | ip_country/src/country_block_serde.rs:158-173 | both serializers stand for the empty stream |
| Serializer.CountryBlockSerializer.Add | ip_country/src/country_block_serde.rs:175-180 | a block goes to the serializer of its version and leaves the other alone |
| Serializer.CountryBlockSerializer.Finish | ip_country/src/country_block_serde.rs:182-209 | hands over the serialized tilings of both versions with their block counts |
| Serializer.Serialize | ip_country/src/country_block_serde.rs:157-210 | a whole run over a mixed stream serializes each version's blocks on their own |
| Words.GenerateCountryData | ip_country/src/ip_country.rs:138-155 | drains the queue into full words and a short last one, with the bit count |
| Words.WriteValue | ip_country/src/ip_country.rs:166-183 | writes the next bits as one word; they are always there |
| Words.BitQueueFromCountryData | ip_country/src/country_block_serde.rs:690-701 | given enough words, the loaded queue holds the first bits of them, also if the last word has bits beyond the count |
| Words.UnpackPacked | ip_country/src/ip_country.rs:138-183 | packed words can always be loaded and give back the same bits |
| Words.UnpackedBit | ip_country/src/country_block_serde.rs:690-701 | bit k of word i is bit 64 i + k of what is loaded |
| Words.PackedBit | ip_country/src/ip_country.rs:138-183 | likewise for what is written |
| Deserializer.NewStreamRecord | ip_country/src/country_block_serde.rs:661-675 | overwrites the changed segments in place and puts the address together |
| Deserializer.ReadDifferencesFrom | ip_country/src/country_block_serde.rs:602-616 | reads and consumes what the format's reader of differences does |
| Deserializer.GetRecord | ip_country/src/country_block_serde.rs:548-564 | reads and consumes what the format's reader of records does |
| Deserializer.CountryBlockDeserializer.constructor | ip_country/src/country_block_serde.rs:528-546 | a loaded deserializer has all decoded blocks still to come |
| Deserializer.CountryBlockDeserializer.Next | ip_country/src/country_block_serde.rs:566-600 | hands out the blocks to come one by one, then nothing for ever |
| Deserializer.CollectBlocks | ip_country/src/country_finder.rs:33-38 | collecting ends on any stream with known countries and gives all its blocks |
| Finder.BinarySearch | ip_country/src/country_finder.rs:47-48 | what is found contains the address |
| Finder.SearchAgreesWithScan | ip_country/src/country_finder.rs:42-60 | on ascending ranges binary search finds what a linear scan finds |
| Finder.FindMeansContain | ip_country/src/country_finder.rs:42-60 | with any ascending ranges, gaps or not, the answer is the country of the block around the address unless it is coded ZZ, and none without a block; the lookup of the sentinel never fails |
| Finder.ComparatorPattern | ip_country/src/country_block_stream.rs:76-104 | along a decoded list the comparator reads Less, then Equal once, then Greater |
| Finder.FindInCover | ip_country/src/country_finder.rs:42-60 | on a decoded list the country of the address is reported, none for the sentinel |
| EndToEnd.RoundTrip | ip_country/src/country_block_serde.rs:690-701 | serialized, packed, loaded and decoded, a list comes back with its gaps filled |
| EndToEnd.Build | ip_country/src/country_finder.rs:26-40 | the finder built from the words holds the tilings of the input, with as many blocks as were counted |
| EndToEnd.FinderAnswers | ip_country/src/country_finder.rs:42-60 | for every address the answer is the country of the block that contains it, none if that is ZZ or if no block does |
| CountryTables.OldNew | ip_country/src/countries.rs:13-22 | the index maps each code to the number of its last country |
| CountryTables.New | ip_country/src/countries.rs:24-45 | sentinel first, the others the sorted list of the pairs without the first ZZ, numbered by position |
| CountryTables.FindSentinel | ip_country/src/countries.rs:28-35 | finds the first ZZ, whose removal leaves the other pairs |
| CountryTables.Number | ip_country/src/countries.rs:37-41 | numbers the pairs from 1 in their order |
| CountryTables.SortByCodeSorts | ip_country/src/countries.rs:36 | the sort sorts by code, only permutes, and keeps the order of pairs with the same code |
| CountryTables.AtMostIsDictionaryOrder | ip_country/src/countries.rs:36 | a code comes before another exactly if it is a prefix of it or has the lesser character where they first differ |
| CountryTables.AtMostAntisymmetric | ip_country/src/countries.rs:36 | no two different codes come before each other |
| CountryTables.TableIsAlphabetical | ip_country/src/countries.rs:36-45 | of two countries the one with the lesser code in dictionary order has the lesser number |
| CountryTables.SortedStays | ip_country/src/countries.rs:36 | sorting what is sorted changes nothing |
| CountryTables.TableReloads | ip_country/src/ip_country.rs:101-131 | the table made from the list that is written out is the table it was written from |
| CountryTables.OthersKept | ip_country/src/countries.rs:28-35 | every pair with another code is kept as often as it came |
| CountryTables.CodeLookup | ip_country/src/countries.rs:47-59 | finds the last country with the upper-cased code, fails exactly if there is none, never panics |
| CountryTables.UppercaseInAlphabet | ip_country/src/countries.rs:48 | upper-casing replaces each letter a to z by its partner and leaves all else alone |
| CountryTables.FoundByOwnCode | ip_country/src/countries.rs:47-59 | a country is found by its code exactly if that is upper-case and no later country has it |
| CountryTables.SentinelLookup | ip_country/src/countries.rs:24-59 | ZZ is looked up as the sentinel exactly if the pairs had at most one |
| CountryTables.LookupGivesLast | ip_country/src/countries.rs:24-59 | of several pairs with the code looked up, the one found is the last in the order given |
| Coalescing.RangeCollector.AddOrCoalesce | ip_country/src/ip_country_mmdb.rs:109-130 | merges a range that follows on with the same code, adds any other |
| Coalescing.CollectRanges | ip_country/src/ip_country_mmdb.rs:131-172 | collects any stream in which neighbours with the same code can be compared, that is, are of one version and not at the last address yet |
| Coalescing.CoalesceMeaning | ip_country/src/ip_country_mmdb.rs:109-130 | every address keeps the codes it had, and gets no others |
| Coalescing.CoalesceAscending | ip_country/src/ip_country_mmdb.rs:109-130 | the list stays ascending and disjoint |
| Coalescing.CoalesceIsCoalesced | ip_country/src/ip_country_mmdb.rs:109-130 | no neighbours with the same code and version are left of which one ends right before the other starts |
| Coalescing.NeighboursMerge | ip_country/src/ip_country_mmdb.rs:109-130 | neighbours of the stream with the same code and version, the second starting right after the first, lie in one range of the result |
| Coalescing.CoalesceIdempotent | ip_country/src/ip_country_mmdb.rs:109-130 | a list without such neighbours is left alone |
| Parser.ExtractData | ip_country/src/ip_country_mmdb.rs:103-173 | gives the coalesced ranges, and as pairs exactly the codes with the names that items give them, "Unknown" for a missing name, and the sentinel for items without a code |
| Parser.Parse | ip_country/src/ip_country_mmdb.rs:53-94 | parses any well-formed database with both versions into a finder built from it, with the table made again from the list written out |
| Parser.ParsedAnswers | ip_country/src/ip_country_mmdb.rs:64-94 | for every address the finder's answer is the country of the item that contains it, none if there is none |
| Parser.AnswerIsLast | ip_country/src/countries.rs:24-59 | the answer for a code is the last pair in enumeration order with that code in upper case, none exactly if there is no such pair or it is ZZ |
| Parser.AnswerHasCode | ip_country/src/ip_country_mmdb.rs:131-165 | the answer for an item has its code exactly if that code is upper-case, and ZZ gives none |
| Parser.AnswerHasName | ip_country/src/ip_country_mmdb.rs:131-165 | it has the item's name too exactly if no other name for the code was enumerated later, so always if the items agree on it |
| Parser.PairsInFields | ip_country/src/ip_country_mmdb.rs:134-166 | the same about the set of pairs of any items |
| Parser.AnswerWithoutCode | ip_country/src/ip_country_mmdb.rs:147-166 | an address in the range of an item without a country code has no country |
| Parser.AnswerForCode | ip_country/src/ip_country_mmdb.rs:64-165 | an address in the range of an item has the country with the upper-cased code, under a name some item gives it; none exactly if no item has that code or it is ZZ |
| Parser.AnswerForAgreedName | ip_country/src/ip_country_mmdb.rs:64-165 | if all items with an upper-case code agree on the name the answer has that code and name, and "Unknown" if none gives one |
| NameServers.SubvertedMeansFirst | dns_utility/src/win_dns_modifier.rs:374-380 | a list is subverted exactly if its first server is the local one, and then it also makes no sense |
| NameServers.ListsInCharacters | dns_utility/src/win_dns_modifier.rs:374-380 | a list makes no sense exactly if 127.0.0.1 stands in it between commas or its ends, and is subverted exactly if it stands at the front |
| Dns.Chosen | dns_utility/src/win_dns_modifier.rs:118-161 | exactly the eligible interfaces are chosen, each once |
| Dns.ForwardFrame | dns_utility/src/win_dns_modifier.rs:32-44 | a pass touches a prefix ending at the first failure, each interface by its own state and fault, and nothing else |
| DnsOutcomes.StepInFields | dns_utility/src/win_dns_modifier.rs:238-358 | when one interface succeeds, what it holds then, and what rolling it back leaves, all in terms of its list, its backup and the fault |
| DnsOutcomes.FoundIfPossible | dns_utility/src/win_dns_modifier.rs:142-179 | interfaces are found for subversion exactly if some seen interface has a list and a gateway that is not empty, and all such have the same gateway |
| DnsOutcomes.ChosenAt | dns_utility/src/win_dns_modifier.rs:143-156 | interfaces are worked on in the order they are seen |
| DnsOutcomes.CallSucceeds | dns_utility/src/win_dns_modifier.rs:28-82 | from any registry, a call succeeds exactly if interfaces are found and each of them succeeds |
| DnsOutcomes.CallLeaves | dns_utility/src/win_dns_modifier.rs:28-82 | from any registry and under any faults, what each interface seen holds after a call, whether it succeeds or fails |
| DnsOutcomes.UnseenIsUntouched | dns_utility/src/win_dns_modifier.rs:28-82 | an interface not seen is left alone |
| DnsOutcomes.SubvertSucceedsExactly | dns_utility/src/win_dns_modifier.rs:28-54 | subversion succeeds exactly if some interface has a list and a gateway, these have one gateway, and each has the local server first, or nowhere and no fault |
| DnsModifiers.WinDnsModifier.SetNameservers | dns_utility/src/win_dns_modifier.rs:264-284 | changes the list of the named interface only, or fails and changes nothing |
| DnsModifiers.WinDnsModifier.SubvertInterface | dns_utility/src/win_dns_modifier.rs:238-262 | outcome and state of subverting one interface under any fault |
| DnsModifiers.WinDnsModifier.RollBackSubvert | dns_utility/src/win_dns_modifier.rs:299-315 | the state after rolling one interface back |
| DnsModifiers.WinDnsModifier.RevertInterface | dns_utility/src/win_dns_modifier.rs:317-339 | outcome and state of reverting one interface under any fault |
| DnsModifiers.WinDnsModifier.RollBackRevert | dns_utility/src/win_dns_modifier.rs:341-358 | the state after rolling one interface back |
| DnsModifiers.WinDnsModifier.GoForward | dns_utility/src/win_dns_modifier.rs:32-44 | the fold over the interfaces, passing over the rest after a failure |
| DnsModifiers.WinDnsModifier.RollBackAll | dns_utility/src/win_dns_modifier.rs:45-51 | exactly the touched interfaces are rolled back |
| DnsModifiers.WinDnsModifier.Subvert | dns_utility/src/win_dns_modifier.rs:28-54 | the registry and outcome of a subversion |
| DnsModifiers.WinDnsModifier.Revert | dns_utility/src/win_dns_modifier.rs:56-82 | the registry and outcome of a reversion |
| DnsRuns.TransactOutcome | dns_utility/src/win_dns_modifier.rs:28-82 | a call leaves all interfaces it touched subverted or all original, the others as they were |
| DnsRuns.CallKeepsSettled | dns_utility/src/win_dns_modifier.rs:28-82 | under any fault each interface holds its original, or the local server and a backup of it |
| DnsRuns.RunKeepsSettled | dns_utility/src/win_dns_modifier.rs:28-82 | so does every sequence of calls |
| DnsRuns.RunLosesNothing | dns_utility/src/win_dns_modifier.rs:28-82 | from any registry without backups, no sequence of calls with any faults and any accessible interfaces loses a list |
| DnsRuns.FailedRevertChangesNothing | dns_utility/src/win_dns_modifier.rs:56-82 | a failing reversion leaves the registry exactly as it was |
| DnsRuns.RevertRestoresOriginals | dns_utility/src/win_dns_modifier.rs:56-82 | a successful reversion that sees all subverted interfaces restores every original |
| DnsRuns.SubvertSubvertsAll | dns_utility/src/win_dns_modifier.rs:28-54 | a successful subversion subverts every eligible interface and touches none it does not see |
| DnsRuns.SubvertThenRevert | dns_utility/src/win_dns_modifier.rs:28-82 | successful subversion then successful reversion is the identity |
| DnsAnyRegistry.FailedAt | dns_utility/src/win_dns_modifier.rs:45-51 | a failed call leaves at each interface it touched what rolling back its attempt gives, and only the last attempt failed |
| DnsAnyRegistry.SubvertThenRollBack | dns_utility/src/win_dns_modifier.rs:299-315 | however far subverting an interface got, rolling it back restores it exactly if it had no backup |
| DnsAnyRegistry.FailedPassMetNoBackup | dns_utility/src/win_dns_modifier.rs:32-44 | in a safe registry a failing subversion has met no backup |
| DnsAnyRegistry.FailedSubvertFromSafe | dns_utility/src/win_dns_modifier.rs:28-54 | so it leaves the registry exactly as it was |
| DnsAnyRegistry.FatalSubvert | dns_utility/src/win_dns_modifier.rs:45-51 | in any other registry some fault makes a subversion fail and leave something changed |
| DnsAnyRegistry.SubvertAtomicIffSafe | dns_utility/src/win_dns_modifier.rs:28-54 | from any registry, subversion is all-or-nothing under every fault exactly if no interface with a backup is still to be subverted or comes before one that is, except behind one that is refused |
| DnsAnyRegistry.FailedFirstSubvertChangesNothing | dns_utility/src/win_dns_modifier.rs:28-54 | from a registry without backups a failing subversion leaves it exactly as it was |
| DnsAnyRegistry.FailedSubvertCanDisturb | dns_utility/src/win_dns_modifier.rs:45-51 | a concrete subversion that fails and un-subverts an interface |
| DnsAnyRegistry.FailedSubvertCanLose | dns_utility/src/win_dns_modifier.rs:299-306 | a concrete subversion that fails and destroys a backup left beside a list in use |
| DnsAnyRegistry.RevertAtomicIffSafe | dns_utility/src/win_dns_modifier.rs:56-82 | from any registry, reversion is all-or-nothing under every fault exactly if every interface but the last holds the local server and a backup that is not, and each survives a fault on itself |
| DnsAnyRegistry.FailedRevertFromSafe | dns_utility/src/win_dns_modifier.rs:73-79 | under that condition a failing reversion changes nothing |
| DnsAnyRegistry.FatalRevert | dns_utility/src/win_dns_modifier.rs:341-358 | without it some fault makes a reversion fail and leave something changed |
| DnsAnyRegistry.FailedRevertCanLose | dns_utility/src/win_dns_modifier.rs:341-345 | a concrete failing reversion after which a backup is gone |
| DnsAnyRegistry.RunKeeps | dns_utility/src/win_dns_modifier.rs:28-82 | an interface without two different lists to keep stays so, and keeps every list that is not local, through every sequence of calls |
| DnsAnyRegistry.LosingRun | dns_utility/src/win_dns_modifier.rs:317-339 | any other interface loses a list to a reversion that sees only it and succeeds |
| DnsAnyRegistry.NothingLostIffClean | dns_utility/src/win_dns_modifier.rs:28-82 | from any registry, exactly the interfaces without two different lists to keep lose nothing in any sequence of calls |
| MultiConfig.NextVclArg | masq_lib/src/multi_config.rs:301-315 | takes one option, with its value if it has one, off the front; panics exactly on a non-option |
| MultiConfig.NewCommandLineVcl | masq_lib/src/multi_config.rs:292-299 | parses everything after the command |
| MultiConfig.OptionsStartWithDashes | masq_lib/src/multi_config.rs:306-309 | an option is two dashes with anything behind them |
| MultiConfig.PrintParsed | masq_lib/src/multi_config.rs:159-164 | exactly the well-formed arguments are accepted, and printing gives them back |
| MultiConfig.ParsePrinted | masq_lib/src/multi_config.rs:291-316 | parsing what was printed gives the same structure exactly if it is printable |
| MultiConfig.CommandLineRoundTrip | masq_lib/src/multi_config.rs:280-299 | an accepted command line is printed back as it was after the command slot, and parses again to the same structure |
| MultiConfig.Merge | masq_lib/src/multi_config.rs:240-269 | the filter over the chain of higher and lower, with a shrinking set of names |
| MultiConfig.MergedIsFirsts | masq_lib/src/multi_config.rs:249-265 | merging keeps exactly the first occurrence of each name in higher followed by lower |
| MultiConfig.MergeAssociative | masq_lib/src/multi_config.rs:240-269 | merging is associative |
| MultiConfig.MergeSources | masq_lib/src/multi_config.rs:64-68 | the fold over the sources |
| MultiConfig.LatestSourceWins | masq_lib/src/multi_config.rs:56-68 | each name comes out once, as the latest source that has it says, and no name is lost |
| MultiConfig.MergedHolds | masq_lib/src/multi_config.rs:249-265 | a merged list holds exactly the arguments that come first with their name in higher followed by lower |
| MultiConfig.MergedInOrder | masq_lib/src/multi_config.rs:249-265 | it holds them in that order |
| MultiConfig.LatestSourceByPosition | masq_lib/src/multi_config.rs:56-68 | the first argument with a name in the latest source that has it is in the result, and no other with that name |

## Left out

- The CSV and MaxMind readers, the generated Rust text (only its words, counts and list of countries are modelled, not the quoting of names) and the constant data tables.
- Error messages, and items of a database that cannot be read, which the parser reports and skips.
- Registry paths, the choice between the two gateway values, and adapter friendly names; a successful `netsh` call is taken to change exactly the named interface.
- Failure to open the registry key above the interfaces, which ends a call before it changes anything.
- Registry reads that fail although the value exists, and rollback steps that fail, where the program panics.
- `find_interfaces_to_inspect` and `inspect` in the DNS modifier, which change nothing.
- The resolv.conf and dynamic-store DNS modifiers, which rest on a regular-expression engine and on CoreFoundation.
- `clap` matching and the environment and configuration-file sources, whose arguments are inputs of the merge here.
- The library's sort and binary search are stood for by an insertion sort and a halving search with the contracts the library documents.
- QueueRuns.Run: covers calls whose data fits the announced bit count; what other data does is stated call by call at `AddBits`, because whether a later take drops it depends on the layout of the bytes.
- Automap, the MASQ command-line interface, logging and process plumbing.
