# dns-db storage engine, modelled in Dafny

dns-db keeps DNS domain names, each with the IPv4 records seen for it, in
block files on disk. This project models the storage engine of dns-db and
proves properties of the model.

- **Keys (`keys.dfy`, `domain_codec.dfy`).** A domain `local.tld` becomes
  a 35-byte key. The key holds the local part, then one byte giving the
  TLD's position in `tld_domains`, then zero fill. Keys compare with
  `strncmp`, between the sentinels `DOMAIN_MIN` (all 0x00) and
  `DOMAIN_MAX` (all 0xFF).
- **Records and slots (`records.dfy`, `slots.dfy`).** An `IPv4_Record` is
  12 bytes, little-endian. A block file is an array of `numBlocks` slots of
  64 bytes. A slot is free, a domain header (a key and 2 records), or a
  continuation (5 records). A continuation extends the record chain of the
  header just before it.
- **Bitmap (`bitmap.dfy`).** Each block has a word-vector bitmap of its
  used slots.
- **One block (`block_spec.dfy`, `block_lemmas.dfy`, `block_props.dfy`,
  `ip_lemmas.dfy`, `dns_block.dfy`).** A block supports these operations:
  - a search for the insertion spot among the sorted headers;
  - `addDomain`, which shifts slots once with `makeRoomMove`;
  - `addDomainIpv4`, which fills the chain, claims a continuation, or shifts
    and retries once;
  - `splitBlock`, `getMin/MaxDomain`, `check` and the iterator.

  These are written as functions on the slot sequence. The `DnsBlock`
  class works on an array of slots and a bitmap, and each of its methods is
  proved to compute those functions.
- **The index (`index_spec.dfy`, `index_ops.dfy`, `index_proofs.dfy`,
  `index_ip_proofs.dfy`, `index_reports.dfy`, `index_misread.dfy`,
  `perm_sums.dfy`, `index_counts.dfy`, `dns_index.dfy`).** The index is a table of nodes `{min, max, id}` that
  tile the key space. It also holds `current_id` and the block files the
  nodes name. The model covers lookup, the split-and-redo protocol of
  `addDomain` and `addIp4Record`, the sorted node insert, the flat index
  file, `check()` and the record counts. The `DnsIndex` class and its
  `Iterator` are proved to compute the functions of the index state.
- **File and block caches (`file_mapper.dfy`, `block_cache.dfy`).**
  - The `FileMapper` keeps mapped files with reference counts. Mappings
    nobody uses stay cached until the mapped total exceeds the limit.
  - The `BlockManager` caches open blocks by id. It evicts only blocks that
    no one else holds.
- **Block-file naming (`block_path.dfy`).** `to_string(n, n_digits)` and
  the path `getNewBlock` builds for a block id.

The model follows several conventions:
- Each C++ `assert` that can fail after something has changed is an
  `Abort` outcome. An assert that guards a leaf operation's input is a
  precondition.
- Integers are unbounded. The 32-bit `current_id` and the on-disk 32-bit
  fields are written out where they matter. The `int` sizes of the file
  mapper are not; "## Left out" says what that misses.
- The three operations that call into the OS or a block constructor take
  the results of those calls as parameters: `FileMapper.MapFile`,
  `BlockManager.GetBlock` and `DnsIndex.Unserialize`.

## Model

| member | source | states |
|---|---|---|
| Bitmaps.ZeroWord | dns_db.h:117 | a cleared 32-bit word: every bit is 0 |
| Bitmaps.OnesWord | bitmap.cc:24 | the all-ones word `~0` that getRight skips when looking for a clear bit: every bit is 1 |
| Bitmaps.Count | bitmap.cc:38 | the population count of a bit sequence, at most its length |
| Bitmaps.CountConcat | bitmap.cc:37-39 | the population count of two concatenated bit sequences is the sum of their counts, which is why bitCount may add word by word |
| Bitmaps.BitsOf | dns_db.h:128-131 | the bit sequence of a vector of words is 32 bits per word, bit k of word i at position 32*i+k |
| Bitmaps.BitsOfSnoc | dns_db.h:128-131 | appending a word appends its 32 bits |
| Bitmaps.Bitmap.Bits | dns_db.h:134 | the bitmap read as one flat sequence of NumBits bits |
| Bitmaps.Bitmap.constructor | bitmap.cc:11 | the vector has numBits/32 words (the division truncates), all zero, so every bit reads 0 |
| Bitmaps.Bitmap.GetBit | dns_db.h:128-132 | getBit(pos) is bit pos of the flat bit sequence |
| Bitmaps.Bitmap.SetBit | dns_db.h:119-126 | setBit(pos, value) sets bit pos to `value != 0` and changes no other bit and not the size |
| Bitmaps.Bitmap.Clear | dns_db.h:117 | clear() keeps the size and makes every bit 0 |
| Bitmaps.Bitmap.GetFirst | bitmap.cc:13-21 | getFirst(value) returns the lowest position holding value, or -1 exactly when no bit holds it |
| Bitmaps.Bitmap.GetRight | bitmap.cc:23-33 | getRight(pos, set) returns the lowest position holding `set` among the positions it scans (words from pos/32 on, and in every word only offsets from pos%32 on), or -1 exactly when none of those holds it |
| Bitmaps.Bitmap.BitCount | bitmap.cc:35-41 | bitCount() is the number of set bits |
| Bitmaps.GetRightSkipsLowOffsets | bitmap.cc:27 | the offset restarts at pos%32 in every word: with only bit 32 set, getRight(1, true) does not see it and returns -1 |
| Records.U32RoundTrip | record.h:10-13 | a 32-bit field read back from its four little-endian bytes is the same value |
| Records.RecordRoundTrip | record.h:10-13 | an IPv4 record (first_seen, last_seen, ip) read back from its 12 bytes is the same record |
| Records.RecordsRoundTrip | dns_db.h:87-91 | a run of records read back from its bytes is the same run |
| Slots.EmptySlot | dns_block.cc:406 | a zeroed 64-byte slot is free and all its records are zero |
| Slots.Recs | dns_db.h:84-94 | a header slot carries 2 records, a continuation or free slot 5 |
| Slots.WithRec | dns_block.cc:283-290 | writing record i of a slot changes that record only and keeps the slot's kind and key |
| Slots.HeaderFlags | dns_block.cc:12-13 | the header byte has flagUsed (0x80) exactly for used slots and flagDomain (0x40) exactly for header slots |
| Slots.SlotBytes | dns_db.h:82-95 | a slot is 64 bytes whose first byte is its header byte |
| Slots.SlotRoundTrip | dns_db.h:82-95 | a slot decoded from its 64 bytes is the same slot |
| Slots.RecordFormRoundTrip | dns_db.h:89-92 | a continuation or free slot keeps its 5 records at bytes 4..64 (after 3 bytes of padding), and they read back unchanged |
| Slots.DomainFormRoundTrip | dns_db.h:85-88 | a header slot keeps its 35-byte key at bytes 1..36 and its 2 records at bytes 36..60 |
| Slots.KeyBytes | dns_block.cc:72 | the 35 bytes that lookupDomain compares, whatever the slot's kind |
| Slots.KeyBytesOf | dns_block.cc:72 | those bytes are the key of a header slot; a non-header slot matches a key only when the key is DOMAIN_MIN and its first record's ip is 0 |
| Slots.EmptySlotKeyBytes | dns_block.cc:72 | a zeroed slot's bytes match DOMAIN_MIN |
| Keys.DomainMin | dns_db.h:19 | DOMAIN_MIN is 35 zero bytes |
| Keys.DomainMax | dns_index.cc:33 | the top of the key space, the max the constructor memsets into its first node: 35 bytes of 0xFF |
| Keys.StrNCmpFromDiff | dns_db.h:13 | strncmp over 35 bytes is negative exactly when the first differing byte is smaller, and zero exactly when no byte differs |
| Keys.LessIsLex | dns_db.h:13-17 | on zero-padded keys `less` is the lexicographic order on bytes and `eq` is equality |
| Keys.LessIrreflexive | dns_db.h:13 | no key is less than itself |
| Keys.LessTotal | dns_db.h:13 | any two keys are equal or one is less than the other |
| Keys.LessAsym | dns_db.h:13 | `less` holds in at most one direction |
| Keys.LessTrans | dns_db.h:13 | `less` is transitive |
| Keys.MinMaxBounds | dns_index.cc:32-33 | DOMAIN_MIN is at or below every key and DOMAIN_MAX above every other key |
| Keys.LessEqIsLessOrEq | dns_db.h:14 | `less_eq` is `less` or equality |
| BlockSpec.EmptyBlock | dns_block.cc:34-35 | a block file as createFile leaves it: numBlocks zeroed slots, all free |
| BlockSpec.UsedBits | dns_block.cc:57-60 | what updateBM writes: bit i set exactly when slot i is used |
| BlockSpec.StopAt | dns_block.cc:209-221 | where the linear search stops: every header before it is less than the key, and the slot there (if any) is a header not less than the key |
| BlockSpec.LastHeaderBefore | dns_block.cc:211-212 | the last header before a slot, after which the search's last_empty restarts: a header, with no header between it and the slot |
| BlockSpec.FirstFreeIn | dns_block.cc:206-207 | the first free slot of a range, or -1 when the range has none |
| BlockSpec.Spot | dns_block.cc:203-230 | lookupEmptyDomainSpot: ALREADY_EXISTS only at a header holding the key; EMPTY_FOUND only at a free slot with every header before it less than the key and no header after it short of the stop point; NO_EMPTY_SPOT with pos 0 |
| BlockSpec.ChainEnd | dns_block.cc:335-338 | the end of a header's continuation run: all continuations up to it, and it is not one |
| BlockSpec.Shift | dns_block.cc:355-369 | the memmove of makeRoomMove: slot p zeroed, slots p..f-1 moved one place up over the free slot f, every other slot unchanged |
| BlockSpec.NewHeader | dns_block.cc:257-259 | the slot addDomain writes: a header with the key and two zero records |
| BlockSpec.AddDomain | dns_block.cc:234-267 | addDomain answers OK, NoSpaceLeft or AlreadyExists; AlreadyExists exactly when hasDomain; the block is unchanged unless OK; on OK the key has a header |
| BlockSpec.MakeRoomAfterNoSpot | dns_block.cc:243-346 | where addDomain calls makeRoomMove its asserts hold, and after the move either nothing changed or the search now finds an empty spot |
| BlockSpec.LookupDomain | dns_block.cc:67-78 | the first slot of any kind whose 35 key bytes equal the key, no earlier slot matching; -1 when none matches |
| BlockSpec.LookupFrom | dns_block.cc:71-75 | the same scan from slot i on |
| BlockSpec.FirstZeroIp | dns_block.cc:281-292 | the first record entry with ip 0, none before it; -1 when every entry is taken |
| BlockSpec.FirstWithRoom | dns_block.cc:279-296 | the first slot of a chain with an ip-0 entry, none before it; -1 when the chain is full |
| BlockSpec.NewCont | dns_block.cc:301-303 | the continuation addDomainIpv4 allocates: the record first, four zero records after it |
| BlockSpec.AddIp | dns_block.cc:273-314 | addDomainIpv4_int keeps the block size; it answers false only when no slot matches the key, when it is the retry, or with the block unchanged |
| BlockSpec.FirstHeaderIn | dns_block.cc:390-396 | the first header of a range, none before it; -1 when the range has none |
| BlockSpec.SplitSearchSpec | dns_block.cc:389-398 | splitBlock's search fails exactly when no header lies between its lowest probe and numBlocks-16 |
| BlockSpec.SplitPosSpec | dns_block.cc:387-400 | the split point is a header below numBlocks-16; there is none exactly when no header lies below numBlocks-16; a header in [N/2, N-16) is taken first |
| BlockSpec.Split | dns_block.cc:386-410 | splitBlock keeps both blocks numBlocks slots long |
| BlockSpec.FirstHeader | dns_block.cc:421-429 | getMinDomain's scan: the first header, none before it; -1 when the block has none |
| BlockSpec.LastHeader | dns_block.cc:412-420 | getMaxDomain's scan: the last header, none after it; -1 when the block has none |
| BlockSpec.NextUsed | dns_block.cc:462-466 | the block iterator's scan: every slot it skips is free and the slot it reaches is used, or the end |
| BlockLemmas.HeaderKeysIn | dns_block.cc:136-145 | a key is among a block's header keys exactly when some header holds it |
| BlockLemmas.FreeBlockCounts | dns_block.cc:34-35 | a zeroed block has no used slot and no header |
| BlockLemmas.UsedCountBounds | dns_db.h:54-55 | getNumRecords is at most numBlocks, and equal to it exactly when every slot is used, so getNumFreeRecords is never negative |
| BlockLemmas.SpotSorted | dns_block.cc:203-230 | on a sorted block hasDomain is exactly "some header holds the key"; otherwise the search reports EMPTY_FOUND exactly when some free slot fits the key in order, and then at the first such slot |
| BlockLemmas.InsertKeepsWF | dns_block.cc:253-259 | writing a used slot into the free slot u after moving x..u-1 up keeps a block sorted, hole-free and packed when the slot fits there |
| BlockLemmas.AddDomainPlaced | dns_block.cc:253-266 | on a well-formed block, addDomain at an EMPTY_FOUND spot keeps it well formed and adds the key: inserted among the header keys in order, one used slot more, and hasDomain now holds |
| BlockLemmas.AddDomainMoved | dns_block.cc:238-249 | the same after makeRoomMove: the block stays well formed and on OK the key is added as above |
| BlockLemmas.AddDomainKeepsWF | dns_block.cc:234-267 | addDomain on a well-formed block keeps it well formed, and OK means the key was added: in order, one used slot more and hasDomain true |
| BlockLemmas.MoveMakesRoom | dns_block.cc:355-369 | when a free slot lies after the stop point, addDomain succeeds |
| BlockLemmas.AddDomainNoSpace | dns_block.cc:247-248 | resNoSpaceLeft leaves the block unchanged and happens only when every slot is used |
| BlockLemmas.ShiftPacked | dns_block.cc:355-369 | the memmove keeps the used slots and their order |
| BlockLemmas.MakeRoomIsShift | dns_block.cc:328-369 | where a move happens, makeRoomMove is that shift from the stop header to the first free slot after it |
| BlockLemmas.ShiftedBits | dns_block.cc:375-376 | the two setBit calls after the move leave the bitmap equal to the new block's used bits |
| BlockLemmas.MakeRoomPacked | dns_block.cc:319-383 | makeRoomMove keeps the used slots and their order |
| BlockLemmas.MakeRoomKeepsOrder | dns_block.cc:319-383 | makeRoomMove keeps a block sorted and hole-free |
| BlockLemmas.ShiftUsedBits | dns_block.cc:375-376 | after the shift the used bits are the old ones with p cleared and f set |
| BlockProps.PrefixWF | dns_block.cc:406 | the lower part a split leaves (slots before pos, zeroes after) is well formed |
| BlockProps.SuffixWF | dns_block.cc:405 | the upper part (slots from pos, zeroes after) is well formed when pos is a header |
| BlockProps.SplitCounts | dns_block.cc:403-406 | the two parts hold between them exactly the old header keys, in order, and the old used slots |
| BlockProps.SplitSpec | dns_block.cc:386-410 | splitBlock into a zeroed block fails its assert exactly when no header lies below numBlocks-16, and otherwise both halves are well formed, hold the old keys in order and the old used slots between them, and every key left behind is less than the new block's first key |
| BlockProps.SplitIntoEmpty | dns_block.cc:403-409 | the two halves of a split into a zeroed block, written out |
| BlockProps.SplitHalves | dns_block.cc:403-406 | splitting a well-formed block at any header gives the promise above |
| BlockProps.SplitOrder | dns_block.cc:405 | the new block starts with the split header and every key kept is less than it |
| BlockProps.MinMaxSorted | dns_block.cc:412-429 | on a sorted block getMinDomain's header is the least and getMaxDomain's the greatest; one scan fails exactly when the other does, exactly when the block has no header |
| BlockProps.CheckFromMin | dns_block.cc:434-449 | check() from slot i with prev still DOMAIN_MIN reports exactly the DOMAIN_MIN headers and the continuations after a free slot or at slot 0 |
| BlockProps.CheckReports | dns_block.cc:431-453 | check() reports "unsorted" exactly at headers whose key is DOMAIN_MIN (prev is only replaced on a report) and "hole" exactly at continuations at slot 0 or after a free slot |
| BlockProps.CheckHoles | dns_block.cc:443-447 | check() reports no hole exactly when the block has no hole |
| BlockProps.CheckMissesDisorder | dns_block.cc:437-440 | two headers in decreasing order, neither DOMAIN_MIN, are not sorted yet check() reports nothing |
| BlockProps.VisitsUsed | dns_block.cc:460-477 | the block iterator stops at exactly the used slots from its start, in increasing order |
| IpLemmas.LookupFinds | dns_block.cc:67-78 | the slot lookupDomain returns is a header holding the key, or else the key is DOMAIN_MIN and the slot a non-header whose first record has ip 0 |
| IpLemmas.LookupIsHeader | dns_block.cc:67-78 | for any key but DOMAIN_MIN, lookupDomain finds a slot exactly when a header holds the key, and what it finds is that header |
| IpLemmas.LookupWF | dns_block.cc:67-78 | on a well-formed block lookupDomain of a stored key returns its header |
| IpLemmas.AddIpKeepsWF | dns_block.cc:273-314 | on a well-formed block addDomainIpv4_int never fails an assert, keeps the block well formed, and either answers false with the block unchanged, or writes the record into one ip-0 entry, or inserts one new continuation holding it |
| IpLemmas.AddIpRecords | dns_block.cc:273-314 | for a stored domain: the header keys stay; on true the record joins the domain's getIpsv4 list at one place, the other records kept in order; on false the block is unchanged |
| IpLemmas.ChainRecordsInPlace | dns_block.cc:281-292 | writing the record into a free entry of the chain splices it into the domain's record list, keeping the rest in order |
| IpLemmas.ChainRecordsAppend | dns_block.cc:300-305 | a new continuation right after the chain appends the record to the domain's record list |
| IpLemmas.LiveRecsMembers | dns_block.cc:92-99 | getIpsv4 lists exactly the records whose ip is not 0 |
| IpLemmas.RetryOutcome | dns_block.cc:307-311 | when the chain is full and no free slot follows it, the retry after makeRoomMove inserts a continuation at the chain's end if a free slot lies further on, and answers false with the block unchanged otherwise |
| IpLemmas.NoRoomFalse | dns_block.cc:313 | the second attempt, without retry, answers false and changes nothing when the chain is full and not followed by a free slot |
| IpLemmas.AddIpRefused | dns_block.cc:273-314 | a false answer leaves the block unchanged, and for a stored domain it happens only when every slot is used |
| IpLemmas.TakenWhenRoom | dns_block.cc:279-306 | a chain with a free entry, or followed by a free slot, always takes the record |
| IpLemmas.RefusedFull | dns_block.cc:307-313 | a refusal for a stored domain means the block is full |
| IpLemmas.AddIpMissing | dns_block.cc:274-276 | for a key other than DOMAIN_MIN that no header holds, the answer is false and nothing changes |
| IpLemmas.AddIpMinOnEmpty | dns_block.cc:274-284 | on a zeroed block the DOMAIN_MIN key matches free slot 0, which takes the record although it holds no header |
| DnsBlocks.AppendLive | dns_block.cc:91-100 | the loop over a slot's records appends exactly its records with ip not 0, in order |
| DnsBlocks.AddDomainAt | dns_block.cc:236-266 | addDomain branch by branch: ALREADY_EXISTS returns resAlreadyExists unchanged; EMPTY_FOUND writes the new header into the free spot; NO_EMPTY_SPOT moves once, never finds the key then, and writes the header at the new spot or answers resNoSpaceLeft |
| DnsBlocks.AddIpAt | dns_block.cc:279-312 | addDomainIpv4_int branch by branch: the first free entry of the chain takes the record; else a free slot right after the chain becomes a continuation; else false without retry, or makeRoomMove and a second attempt with retry |
| DnsBlocks.DnsBlock.constructor | dns_block.cc:33-47 | a block over numBlocks slots with its bitmap rebuilt from them (updateBM), the slots as the file holds them |
| DnsBlocks.DnsBlock.UpdateBM | dns_block.cc:57-60 | afterwards bit i of the bitmap is set exactly when slot i is used |
| DnsBlocks.DnsBlock.LookupDomain | dns_block.cc:67-78 | the loop returns the first slot whose 35 key bytes equal the key, or -1 |
| DnsBlocks.DnsBlock.GetIpsv4 | dns_block.cc:81-105 | the loop collects the header's live records and then those of each continuation that follows, in slot order |
| DnsBlocks.DnsBlock.LookupEmptyDomainSpot | dns_block.cc:203-230 | the linear scan returns the code and position of the search specification |
| DnsBlocks.DnsBlock.HasDomain | dns_block.cc:107-109 | hasDomain is "the search reports ALREADY_EXISTS" |
| DnsBlocks.DnsBlock.MoveDown | dns_block.cc:361-362 | the memmove and memset: slots p..f-1 move one place up over f and slot p is zeroed |
| DnsBlocks.DnsBlock.RoomScan | dns_block.cc:328-343 | makeRoomMove's first loop stops at the first header not less than the key, or past the chain of a header equal to it |
| DnsBlocks.DnsBlock.ShiftFrom | dns_block.cc:355-380 | from a header at p: the run up to the first free slot moves one place up and the bitmap follows with two setBit calls; nothing moves when no free slot follows |
| DnsBlocks.DnsBlock.MakeRoomMove | dns_block.cc:319-383 | makeRoomMove changes the block as specified and keeps the bitmap in step; where one of its asserts would fire it changes nothing and reports it |
| DnsBlocks.DnsBlock.PlaceHeader | dns_block.cc:253-260 | the free slot pos becomes the new header and its bit is set |
| DnsBlocks.DnsBlock.AddDomain | dns_block.cc:234-267 | addDomain's answer and new contents are those of the specification, the bitmap kept in step |
| DnsBlocks.DnsBlock.TakeEntry | dns_block.cc:280-293 | the record goes into the first ip-0 entry of slot q, if there is one; otherwise nothing changes |
| DnsBlocks.DnsBlock.FillChain | dns_block.cc:279-296 | walking the chain from header p, the first slot with a free entry takes the record; when none has one nothing changes and the walk ends at the chain's end |
| DnsBlocks.DnsBlock.AppendCont | dns_block.cc:300-305 | slot q becomes a continuation holding the record, and the bitmap is rebuilt |
| DnsBlocks.DnsBlock.AddDomainIpv4Int | dns_block.cc:273-314 | addDomainIpv4_int's answer and new contents are those of the specification, the bitmap kept in step |
| DnsBlocks.DnsBlock.AddDomainIpv4 | dns_block.cc:269-271 | addDomainIpv4 is addDomainIpv4_int with retry set |
| DnsBlocks.DnsBlock.SplitScan | dns_block.cc:387-398 | the nested loops find the split point of the specification |
| DnsBlocks.DnsBlock.CopyTail | dns_block.cc:405 | slots pos.. of this block are copied to the front of the new block, whose other slots stay as they were |
| DnsBlocks.DnsBlock.ZeroFrom | dns_block.cc:406 | slots pos.. of this block are zeroed, the rest kept |
| DnsBlocks.DnsBlock.SplitBlock | dns_block.cc:386-410 | splitBlock either fails its assert with both blocks unchanged, or leaves this block holding the slots before the split point and the new block those from it, both bitmaps rebuilt |
| DnsBlocks.DnsBlock.MoveTail | dns_block.cc:403-409 | the copy, the zeroing and the two updateBM calls after the split point is found |
| DnsBlocks.DnsBlock.GetMinDomain | dns_block.cc:421-429 | the key of the first header; the assert's failure when the block has no header |
| DnsBlocks.DnsBlock.GetMaxDomain | dns_block.cc:412-420 | the key of the last header; the assert's failure when the block has no header |
| DnsBlocks.DnsBlock.Check | dns_block.cc:431-453 | the loop produces the reports of the check specification, in slot order |
| DnsBlocks.DnsBlock.GetNumRecords | dns_db.h:54 | getNumRecords is the number of used slots |
| DnsBlocks.DnsBlock.GetNumFreeRecords | dns_db.h:55 | getNumFreeRecords is numBlocks minus the used slots, never negative, and 0 exactly when every slot is used |
| DnsBlocks.BlockIterator.constructor | dns_block.cc:460-468 | the iterator starts at the first used slot from n on, or at the end |
| DnsBlocks.BlockIterator.Next | dns_block.cc:470-477 | next() moves to the first used slot after the current one, or to the end |
| DnsBlocks.BlockIterator.End | dns_block.cc:479-489 | end() is true exactly when no used slot follows the current one, also for an iterator already at endptr, where the source's test misses (see Findings) |
| BlockProps.EndAsWrittenSpec | dns_block.cc:479-489 | end() as written reads past the block exactly when the iterator is at endptr, and otherwise answers whether a used slot follows |
| BlockProps.EmptyEndReadsPast | dns_block.cc:460-489 | on a zeroed block the constructor stops at endptr, where end() as written reads past the block and the intended end() is true |
| DomainCodec.TldTable | util.cc:13-18 | the TLD table has 17 distinct entries, only entry 0 empty |
| DomainCodec.FirstDot | util.cc:21 | strstr(domain, "."): the first dot, none before it; -1 when there is none |
| DomainCodec.TldIndexFrom | util.cc:27-33 | the first table entry equal to the text after the dot, none before it; -1 when none is |
| DomainCodec.IdomKey | util.cc:37-39 | the key domain2idom writes: the bytes before the dot, then the TLD index byte, then zeroes |
| DomainCodec.Domain2Idom | util.cc:20-41 | domain2idom's loops and copies compute the key of the specification, or the refusal |
| DomainCodec.FindDot | util.cc:21 | the loop finds the first dot |
| DomainCodec.FindTld | util.cc:27-33 | the loop finds the first matching table entry |
| DomainCodec.FillKey | util.cc:37-39 | memset, memcpy and the TLD byte build that key |
| DomainCodec.RejectsNoDot | util.cc:21-22 | a domain without a dot is refused |
| DomainCodec.DomainKeyAt | util.cc:20-41 | with the first dot at p, the domain is accepted exactly when p is at most 34 and the text after the dot is in the table, and then the key holds the bytes before the dot, the index of that TLD and zeroes |
| DomainCodec.StrLen | util.cc:46 | strlen of a key: no zero before it, a zero at it unless all 35 bytes are non-zero |
| DomainCodec.Idom2Domain | util.cc:43-53 | idom2domain's copy and strcat produce the name of the specification |
| DomainCodec.DecodeKey | util.cc:43-53 | the key of a local part and a non-empty TLD decodes to the local part, a dot and the TLD's name |
| DomainCodec.RoundTrip | util.cc:20-53 | idom2domain(domain2idom(d)) == d for every accepted d that does not end in a dot |
| DomainCodec.KeysDistinct | util.cc:20-41 | two different accepted domains that do not end in a dot get different keys |
| DomainCodec.KeyBelowMax | util.cc:37-39 | every key domain2idom produces is less than DOMAIN_MAX |
| BlockFiles.DigitChar | dns_db.cc:32 | std::to_string of one digit is that digit's character |
| BlockFiles.ToString | dns_db.cc:29-36 | the loop computes the zero-padded decimal of the specification |
| BlockFiles.PaddedSpec | dns_db.cc:29-36 | to_string(n, k) is all digits, reads back as n, and has max(k, digits of n) characters |
| BlockFiles.PaddedEmpty | dns_db.cc:31 | to_string(0, 0) is the empty string |
| BlockFiles.NameWidth | dns_db.cc:47 | every 32-bit block id gives a name of exactly 16 digits |
| BlockFiles.BlockPath | dns_db.cc:44-50 | the block file of id b is db_path/d1/d2/name.blk, name being b's 16-digit decimal (b taken as unsigned), d1 its last digit and d2 the one before |
| BlockFiles.PathsDistinct | dns_db.cc:44-50 | different block ids get different block files |
| FileMapping.FindFile | file_mapper.cc:29-34 | the first entry mapping the file, none before it; -1 when none does |
| FileMapping.FindPtr | file_mapper.cc:60-65 | the first entry at the address, none before it; -1 when none is |
| FileMapping.FirstIdle | file_mapper.cc:84-90 | flushCached's victim: the first entry with refs == 0, none before it; -1 when every entry is in use |
| FileMapping.RemoveIdle | file_mapper.cc:86-87 | erasing an idle entry takes its size off mapped_cached and leaves mapped_referenced as it was |
| FileMapping.IdleExists | file_mapper.cc:82-90 | with no negative count, a positive mapped_cached means the victim search finds an entry, so the loop always makes progress |
| FileMapping.Flushed | file_mapper.cc:69-92 | what flushCached leaves keeps every count non-negative |
| FileMapping.FlushedKeepsBusy | file_mapper.cc:69-92 | flushCached keeps the entries in use, in order, adds none, and ends at or below MAX_MAPPED unless nothing cached is left |
| FileMapping.BusyRemoveIdle | file_mapper.cc:103-113 | deallocating an idle entry keeps the entries in use, in order |
| FileMapping.FileMapper.constructor | dns_db.h:220-223 | the singleton starts with no mapped file |
| FileMapping.FileMapper.MapFile | file_mapper.cc:27-53 | a file already mapped gets one reference more and its address back; otherwise flushCached runs, and then the asserts on the descriptor and address fail, or a new entry with one reference is appended and its address returned |
| FileMapping.FileMapper.Unmap | file_mapper.cc:55-67 | one reference fewer on the first entry at the address; the assert fails when there is none |
| FileMapping.FileMapper.Refinc | file_mapper.cc:129-137 | one reference more on the first entry at the address; the assert fails when there is none |
| FileMapping.FileMapper.GetRefs | file_mapper.cc:139-146 | the count of the first entry at the address; the assert fails when there is none |
| FileMapping.FileMapper.Deallocate | file_mapper.cc:103-113 | entry p, whose count must be 0, is erased and the others kept in order |
| FileMapping.FileMapper.FlushCached | file_mapper.cc:69-92 | the two sums and the eviction loop leave the table of the flushCached specification |
| FileMapping.FileMapper.FindIdle | file_mapper.cc:84-90 | the loop finds the first entry with refs == 0 |
| BlockCache.FindId | block_manager.cc:6 | blocks.find(id): the entry with the id, none before it; -1 when the map has none |
| BlockCache.InsertPos | block_manager.cc:11 | where emplace puts a new id: after the smaller ids and before the first larger one |
| BlockCache.Insert | block_manager.cc:11 | emplace adds exactly the new entry and keeps every old one |
| BlockCache.InsertSorted | block_manager.cc:11 | emplace of a new id keeps the ids strictly increasing and every entry held by the map, and the new entry is in the map |
| BlockCache.VictimSpec | block_manager.cc:25-34 | the search picks an entry only the map holds with the smallest t, the first one in id order; it reports none (min stays ~0) exactly when every such entry has t == ~0 |
| BlockCache.VictimLowestId | block_manager.cc:25-34 | with every t still 0, as nothing in the source updates it, the victim is the evictable block of lowest id |
| BlockCache.Flushed | block_manager.cc:20-54 | flushUnusedBlocks never grows the map |
| BlockCache.RemoveEvictable | block_manager.cc:37-40 | erasing an entry only the map holds keeps every block somebody else holds |
| BlockCache.RemoveKeeps | block_manager.cc:39 | erasing an entry keeps the map ordered, held and made of old entries |
| BlockCache.FlushedSpec | block_manager.cc:20-54 | flushUnusedBlocks erases only blocks nobody else holds, keeps the map ordered, and leaves at most 16 entries unless no evictable one is left |
| BlockCache.MissKeeps | block_manager.cc:6-16 | after a miss the map is still ordered and held, the new block sits under its id with two references (the map's and the local copy's) and t == 0, every entry somebody else holds is still there, and no entry but the new one appears |
| BlockCache.BlockManager.constructor | dns_db.h:242 | the cache starts empty |
| BlockCache.BlockManager.GetBlock | block_manager.cc:4-17 | a cached id returns its block with one reference more; a miss stores the block made for it, runs the flush when more than 32 are cached, and returns it |
| BlockCache.BlockManager.Release | dns_db.h:34 | dropping a returned shared pointer takes one reference off that block's entry |
| BlockCache.BlockManager.FlushUnusedBlocks | block_manager.cc:20-43 | the loop leaves the map of the flushUnusedBlocks specification |
| BlockCache.BlockManager.FindVictim | block_manager.cc:25-34 | the loop finds the candidate and minimum of the victim specification |
| IndexSpec.FindNode | dns_index.cc:15-27 | lookupNode: the first node whose range [min, max) covers the key, none before it; -1 where the assert fires |
| IndexSpec.InitialTiled | dns_index.cc:29-36 | the constructor's one node [DOMAIN_MIN, DOMAIN_MAX) tiles the key space |
| IndexSpec.MinBelowMax | dns_index.cc:32-33 | DOMAIN_MIN is less than DOMAIN_MAX, so the first node's range is not empty |
| IndexSpec.LookupCovered | dns_index.cc:15-27 | on a tiled table every key below DOMAIN_MAX is covered by exactly one node, so lookupNode's assert never fires and returns that node |
| IndexSpec.SortByMinSpec | dns_index.cc:234 | the sort of addBlock leaves the same nodes with their minimums in non-decreasing order |
| IndexSpec.InsertNodeSame | dns_index.cc:231-234 | placing a node into the table adds exactly that node |
| IndexSpec.SortStrictIdentity | dns_index.cc:234 | sorting a table whose minimums strictly increase changes nothing |
| IndexSpec.SortAppend | dns_index.cc:231-234 | sorting after push_back is inserting the new node into the sorted table |
| IndexSpec.SplitKeepsTiled | dns_index.cc:168-182 | splitting node n at a key inside its range gives ns[..n] + [n with max k, a new node [k, old max) with the new id] + ns[n+1..], still tiling the key space |
| IndexSpec.SplitNodesShape | dns_index.cc:178-182 | the same shape on any ordered table, k possibly node n's minimum |
| IndexSpec.LookupAfterSplit | dns_index.cc:184-186 | after the split a key node n covered is looked up in node n below k and in the new node from k on |
| IndexSpec.NodeBytes | dns_index.cc:44 | a node is written as 74 bytes: min, max and the id |
| IndexSpec.IndexBytes | dns_index.cc:38-47 | serialize writes a 4-byte count and then 74 bytes per node |
| IndexSpec.NodesOf | dns_index.cc:65-69 | reading count nodes gives count nodes, or fails |
| IndexSpec.NodeRoundTrip | dns_index.cc:44-67 | a node read back from its bytes is the same node |
| IndexSpec.NodesRoundTrip | dns_index.cc:43-69 | the nodes read back are those written, in order |
| IndexSpec.IndexRoundTrip | dns_index.cc:38-69 | reading back serialize's file gives the same table, for any table whose size fits the 32-bit count |
| IndexSpec.MaxId | dns_index.cc:73-76 | the largest id of the table, 0 for an empty one |
| IndexSpec.NextId | dns_index.cc:73-77 | unserialize's current_id is above every id unless some id is 0xFFFFFFFF, and it wraps to 0 exactly then |
| IndexSpec.RangeErrorsSpec | dns_index.cc:82-86 | the range loop prints nothing exactly when every node's min is less than its max, and each report names such a node |
| IndexSpec.OrderErrorsSpec | dns_index.cc:89-95 | the order loop prints nothing exactly when each node's min is above the previous one's and equals the previous one's max |
| IndexSpec.TableErrorsSpec | dns_index.cc:82-95 | check() prints nothing about the table exactly when the table is ordered |
| IndexOps.BlockOf | dns_db.h:274 | database->getBlock(id) gives numBlocks slots; a block file not created yet reads as zeroes |
| IndexOps.InitialConsistent | dns_index.cc:29-36 | the constructor's index over block 0 is consistent (tiled, distinct ids below current_id, fresh blocks zeroed, each block well formed with keys in its node's range) when block 0 is well formed without a DOMAIN_MAX header, and it holds exactly block 0's domains |
| IndexOps.AddAt | dns_index.cc:164-165 | the block's addDomain on node n changes only node n's block |
| IndexOps.SplitNode | dns_index.cc:169-182 | the split keeps every block numBlocks long |
| IndexOps.AddIpAt | dns_index.cc:118-120 | the block's addDomainIpv4 on node n changes only node n's block |
| IndexOps.RetryIp | dns_index.cc:139-143 | the redo keeps every block numBlocks long |
| IndexOps.AddIp4RecordOf | dns_index.cc:111-145 | addIp4Record keeps every block numBlocks long |
| IndexProofs.LookupHolds | dns_index.cc:15-27 | on a consistent index a key below DOMAIN_MAX is stored somewhere exactly when the block of the node lookupNode picks has its header |
| IndexProofs.HasDomainHolds | dns_index.cc:147-156 | hasDomain never fails its assert and is true exactly when the codec accepts the domain and the database stores its key |
| IndexProofs.InsertKeeps | dns_index.cc:163-165 | the block's addDomain on the covering node keeps the index consistent, answers AlreadyExists exactly when the block has the key, answers NoSpaceLeft only on a full block it leaves alone, and adds exactly the key on OK |
| IndexProofs.FullRefuses | dns_block.cc:238-248 | a full well-formed block without the key answers resNoSpaceLeft |
| IndexProofs.SplitPoint | dns_block.cc:386-410 | the split point of a block in node n's range is a header in that range, above the node's min unless it is slot 0, and the split is the promised pair of halves |
| IndexProofs.SplitFacts | dns_index.cc:169-182 | the split of node n uses block current_id, which is still zeroed, and yields the table with node n cut at the split key and current_id + 1 |
| IndexProofs.SplitKeepsHolds | dns_index.cc:169-182 | a split moves domains between blocks and neither adds nor loses one |
| IndexProofs.SplitConsistent | dns_index.cc:169-182 | a split at a key strictly inside node n's range keeps the index consistent |
| IndexProofs.SplitRedo | dns_index.cc:167-191 | after a split of a full block the redo's assert fails exactly when the split point is slot 0 and the key is not below the first domain; otherwise the redo answers OK, keeps the index consistent and adds exactly the key |
| IndexProofs.AddDomainKeeps | dns_index.cc:158-212 | addDomain answers resDomainTooLong for a refused domain; it fails an assert exactly in the one case above; otherwise it keeps the index consistent, answers AlreadyExists exactly when the key was stored and OK exactly when it was not, and adds exactly the key |
| IndexProofs.ReplaceConsistent | dns_index.cc:164-165 | writing back a well-formed block with keys in node n's range keeps the index consistent |
| IndexProofs.FullSplits | dns_block.cc:386-410 | a full well-formed block always has a split point |
| IndexProofs.SplitBlockAt | dns_index.cc:169-182 | after a split the nodes before n keep their blocks, node n holds the lower part, the new node the upper part, and the nodes after them keep theirs |
| IndexProofs.SplitIds | dns_index.cc:169-179 | the split keeps block ids distinct and below current_id |
| IndexProofs.SplitBlocks | dns_index.cc:169-182 | after the split every node's block is well formed and holds only keys in its range |
| IndexProofs.SplitFresh | dns_index.cc:169-170 | the block ids not yet handed out still name zeroed blocks after the split |
| IndexProofs.RetryRoom | dns_index.cc:184-190 | the redo on a block with its last slot free and no header for the key never fails its assert and adds the key |
| IndexIpProofs.IpHeaders | dns_block.cc:269-314 | the block's addDomainIpv4 never fails an assert on a well-formed block, and it keeps the block well formed with the same headers |
| IndexIpProofs.RecordsOfStored | dns_index.cc:15-27 | for a stored domain the node lookupNode picks has its header, and the domain's records are that header's chain |
| IndexIpProofs.IpAtKeeps | dns_index.cc:118-120 | addDomainIpv4 on any node keeps the index consistent and the set of stored domains as it was |
| IndexIpProofs.SplitAborts | dns_index.cc:124-127 | splitting a block without a split point fails splitBlock's assert |
| IndexIpProofs.IpSplit | dns_index.cc:121-143 | when the refusing block has a split point the split succeeds, is the split described for addDomain, and keeps the set of stored domains |
| IndexIpProofs.AddIpKeeps | dns_index.cc:111-145 | addIp4Record changes nothing for a domain the codec refuses; whenever it finishes it keeps the index consistent and never adds or loses a domain |
| IndexIpProofs.AddIpUnknown | dns_index.cc:111-145 | a record for a domain the index does not store always ends in a failed assert (DOMAIN_MIN aside) |
| IndexIpProofs.AddIpJoins | dns_index.cc:111-145 | for a stored domain addIp4Record fails its assert exactly when the block refuses the record and its split point is slot 0; otherwise the domain's records afterwards are its records before with the new one joined in |
| IndexIpProofs.RefusedRedo | dns_index.cc:121-143 | after the block refuses, the split succeeds, the redo's assert fails exactly when the split point is slot 0, and otherwise the redo joins the record to the domain's chain |
| IndexIpProofs.RetryJoins | dns_index.cc:139-143 | the redo on the split index fails exactly when the split point was slot 0, and otherwise joins the record to the domain's chain |
| IndexIpProofs.JoinAtNode | dns_index.cc:118-120 | when the block takes the record for a stored domain, the domain's records afterwards are its records before with the new one joined in |
| IndexIpProofs.RedoRefused | dns_index.cc:139-143 | a redo that meets a block refusing the record again fails the assert |
| IndexReports.FreeOf | dns_db.h:55 | a block's free count and its used count add up to numBlocks, and the free count is 0 exactly when every slot is used |
| IndexReports.CountsTotal | dns_index.cc:245-259 | the record count and the free count over the index add up to numBlocks per node, so the record count never exceeds that |
| IndexReports.CountsOver | dns_index.cc:245-259 | the same sum over any prefix of the node table |
| IndexReports.RecordsConcat | dns_index.cc:247-249 | the record count over two tables put together is the sum of their counts |
| IndexReports.RecordsSame | dns_index.cc:247-249 | the record count depends only on the blocks the nodes name |
| IndexReports.RecordsSameExcept | dns_index.cc:247-249 | rewriting a block that no node of the table names leaves the record count alone |
| IndexReports.RecordsAround | dns_index.cc:247-249 | the record count is the count before node n, plus node n's used slots, plus the count after it |
| IndexReports.RecordsReplace | dns_index.cc:247-249 | rewriting node n's block changes the record count by the change in that block's used slots alone |
| PermSums.SumThroughSpec | dns_index.cc:245-251 | reading a count table through a list of node indices fails exactly when an index is past the table, and otherwise sums the entries named |
| PermSums.PermSum | dns_index.cc:245-251 | reading a count table through a permutation of its positions gives the table's sum |
| IndexMisread.OverIsSum | dns_index.cc:245-259 | the intended counts are the sums of the per-node used and free slot counts |
| IndexMisread.AsWrittenAborts | dns_index.cc:245-259 | both loops as written fail exactly when some node's block id is no node index |
| IndexMisread.AsWrittenAgrees | dns_index.cc:245-259 | where the block ids are distinct and each below the number of nodes, both loops as written give the intended counts |
| IndexMisread.SplitGrows | dns_index.cc:169-182 | a split of a table with one node per id handed out adds one node and takes one id |
| IndexMisread.DomainTracksIds | dns_index.cc:158-212 | addDomain keeps one node per id handed out, below the last 32-bit id |
| IndexMisread.IpTracksIds | dns_index.cc:111-145 | addIp4Record keeps one node per id handed out, below the last 32-bit id |
| IndexMisread.TableTracksIds | dns_index.cc:111-191 | the constructor's table has one node per id handed out, and addDomain and addIp4Record keep it so below the last 32-bit id |
| IndexMisread.BuiltCountsAgree | dns_index.cc:245-259 | on a consistent table with one node per id handed out, both loops as written give getNumberRecords and getNumberFreeRecords their intended totals |
| IndexMisread.CountsMisread | dns_index.cc:248 | an index file with one node naming block 5 loads, yet both loops as written index past the node table, while the intended counts add up to numBlocks |
| IndexReports.BlockReportsSpec | dns_index.cc:97-100 | the block loop of check() prints a line for node i exactly for each report of its block's check |
| IndexReports.IndexCheckSpec | dns_index.cc:80-101 | check() prints a table line exactly for each error of the two table loops and a line for node i exactly for each report of its block's check |
| IndexReports.CheckQuiet | dns_index.cc:80-101 | check() prints nothing for a consistent index that does not store DOMAIN_MIN, and a silent check means the table is ordered and no block has a hole |
| IndexReports.SerializeRoundTrip | dns_index.cc:38-78 | unserialize of the file serialize wrote restores the same node table, leaves the blocks alone and sets current_id above every id |
| IndexReports.ReloadedIdBelow | dns_index.cc:73-77 | where every id is below current_id, the reloaded current_id is no larger than the saved one |
| IndexReports.MaxIdAttained | dns_index.cc:73-76 | the largest id of a non-empty table is the id of one of its nodes |
| IndexCounts.AtCounts | dns_index.cc:164-165 | the block's addDomain on node n adds one record to the index exactly when it answers OK |
| IndexCounts.RecordsSplice | dns_index.cc:179-182 | replacing the middle part of the table, the other blocks unchanged, changes the record count by the middle parts alone |
| IndexCounts.RecordsPair | dns_index.cc:247-249 | the record count over one or two nodes is the used slots of their blocks |
| IndexCounts.SplitRecords | dns_index.cc:169-182 | a split moves node n's used slots into its two parts and leaves every other block's count alone |
| IndexCounts.RedoCounts | dns_index.cc:167-191 | after the split of a full block without the key, a redo that finishes answers OK and the index has one record more than before the split |
| IndexCounts.NoSpaceCounts | dns_index.cc:165-191 | the split branch of addDomain: the split succeeds and a finished redo answers OK with one record more than before addDomain |
| IndexCounts.AddDomainCounts | dns_index.cc:158-212 | a finished addDomain adds one record to getNumberRecords when it answers OK and none for any other answer |
| DnsIndexes.NextUsedFrom | dns_block.cc:470-477 | the block iterator's scan stops at the first used slot from i on, or at the end of the block |
| DnsIndexes.DnsIndex.constructor | dns_index.cc:29-36 | a new index is one node [DOMAIN_MIN, DOMAIN_MAX) over block 0 with current_id 1, over the given block files |
| DnsIndexes.DnsIndex.LookupNode | dns_index.cc:15-27 | the loop returns the first node covering the key, or -1 where the source's assert fires |
| DnsIndexes.DnsIndex.SetBlkMinMax | dns_index.cc:214-217 | only node n changes: its min and max are replaced where a value is given, its id kept |
| DnsIndexes.DnsIndex.GetBlkMax | dns_index.cc:218-220 | returns node n's max |
| DnsIndexes.DnsIndex.GetBlkMin | dns_index.cc:221-223 | returns node n's min |
| DnsIndexes.DnsIndex.AddBlock | dns_index.cc:226-242 | the table becomes the old one with the new node, sorted by min, and the result is the first position holding the new id (the final assert never fires) |
| DnsIndexes.DnsIndex.BlockAddDomain | dns_index.cc:164-165 | the block's addDomain on node n, with the answer and new state of the specification |
| DnsIndexes.DnsIndex.BlockAddIp | dns_index.cc:118-120 | the block's addDomainIpv4 on node n, failing exactly where the specification does |
| DnsIndexes.DnsIndex.SplitAt | dns_index.cc:169-182 | the split of node n, failing exactly where the specification does and leaving its state otherwise |
| DnsIndexes.DnsIndex.AddDomain | dns_index.cc:158-212 | addDomain answers and changes the index as the specification, whose answers and domain set are proved in IndexProofs.AddDomainKeeps |
| DnsIndexes.DnsIndex.HasDomain | dns_index.cc:147-156 | hasDomain's answer is the specification's, which IndexProofs.HasDomainHolds ties to the stored domains |
| DnsIndexes.DnsIndex.AddIp4Record | dns_index.cc:111-145 | addIp4Record fails exactly where the specification does and otherwise leaves its state, whose records are proved in IndexIpProofs.AddIpJoins |
| DnsIndexes.DnsIndex.Serialize | dns_index.cc:38-47 | the bytes written are IndexBytes of the table, which IndexSpec.IndexRoundTrip reads back |
| DnsIndexes.DnsIndex.Unserialize | dns_index.cc:49-78 | a missing file changes nothing; otherwise the table and current_id become the file's, failing where the file is malformed |
| DnsIndexes.DnsIndex.BiggestId | dns_index.cc:73-76 | the loop finds the largest block id of the table |
| DnsIndexes.DnsIndex.ReadNodes | dns_index.cc:65-69 | the loop reads count nodes from offset 4, failing exactly when one of them cannot be read |
| DnsIndexes.DnsIndex.Check | dns_index.cc:80-101 | check() prints the lines IndexReports.IndexCheckSpec characterises |
| DnsIndexes.DnsIndex.TableCheck | dns_index.cc:82-95 | the two table loops print the errors IndexSpec.TableErrorsSpec characterises |
| DnsIndexes.DnsIndex.RangeCheck | dns_index.cc:82-86 | the range loop reports each node whose min is not below its max |
| DnsIndexes.DnsIndex.OrderCheck | dns_index.cc:89-95 | the order loop reports each node not adjacent to and above the previous one |
| DnsIndexes.DnsIndex.BlocksCheck | dns_index.cc:97-100 | the block loop prints each node's block reports, in node order |
| DnsIndexes.DnsIndex.GetNumberRecords | dns_index.cc:245-251 | the loop sums the used slots of each node's block (the intended count, see Findings) |
| DnsIndexes.DnsIndex.GetNumberFreeRecords | dns_index.cc:253-259 | the loop sums the free slots of each node's block (the intended count, see Findings) |
| DnsIndexes.IndexIterator.constructor | dns_db.h:144 | the iterator starts at node n, at the first used slot of its block |
| DnsIndexes.IndexIterator.Next | dns_db.h:145-152 | when the block iterator's end() holds, also at endptr, it moves to the first used slot of node p + 1, otherwise to the next used slot of the same block |
| DnsIndexes.IndexIterator.End | dns_db.h:155 | end() holds exactly when the block iterator's end() holds, also at endptr, and p is the last node |
| DnsIndexes.IterEnd | dns_db.h:155 | when end() holds no used slot is left in node order; when none is left end() holds unless the next node's block is empty |
| DnsIndexes.FreshEndReadsPast | main.cc:54-55 | on a fresh database, block 0 zeroed, `list-domains` builds an iterator that stops at endptr of block 0, where end() as written reads past the block; the corrected end() holds there |

## Left out

- The OS behind the engine is not modelled. This covers `open`, `mmap`, `munmap`, `msync`, `fallocate`, `mkdir`, `fopen`, `fwrite` and `fprintf`.
  - A file's contents are a byte or slot sequence.
  - The results of `open`, `fileSize` and `mmap` are parameters of `FileMapper.MapFile`.
  - The block that `getNewBlock` builds is a parameter of `BlockManager.GetBlock`.
  - Diagnostics sent to `stderr` are dropped.
- The index works on the contents of its block files, held as a map from block id to slots. It does not go through `DnsBlock` objects and the `BlockManager`. So sharing one block object between the cache, the index and iterators is not modelled. The block operations it uses are the ones the `DnsBlock` class is proved to compute.
- `shared_ptr` is modelled as an explicit use count on each cache entry, which callers release with `BlockManager.Release`. Destructors are not modelled. This includes the `DnsBlock` destructor's `unmap` (dns_block.cc:49-51) and the `DNS_DB` constructor, destructor and `check` (dns_db.cc:17-27, 39-42).
- `FAST_SEARCH`, the binary-search branch of `lookupEmptyDomainSpot` (dns_block.cc:115-201), is compiled out by default. It calls `getRight` with a signature the header declares differently.
- `#ifdef EXTRA_CHECK` blocks are debug code and are left out. This covers dns_index.cc:193-208 and `checkBM` (dns_block.cc:62-65).
- The `DnsBlock` copy constructor only asserts (dns_block.cc:53-55).
- Some operations are declared but have no body to model: `replaceIpv4`, `replaceDomainIpv4`, `DomainIterator::resync`, `updateIterators` and `IpBloomFilter`. The `DomainIterator` wrapper (dns_db.h:295-330, dns_db.cc:62) only forwards to the index iterator.
- Record readers are not modelled: `DnsBlock::Iterator::getDomain` (dns_block.cc:491-497) and the index iterator's `getDomain`/`getIpsv4`. `getIpsv4` of a block is modelled.
- `DnsIndex::getIterator(domain)` (dns_index.cc:103-109) calls an `Iterator` constructor with three arguments, and dns_db.h:144 declares none. `IndexIterator.constructor` models the one form the code uses, with `domint` 0 (dns_db.h:148, 181).
- `flush`, `fileExists`, `createFile` and `fileSize` of the file layer are I/O and are left out. A missing index file is the `None` input of `DnsIndex.Unserialize`.
- `crawler.cc`, `main.cc`, `server.cc` and `command.h` are outside the storage engine. They hold the asynchronous resolver, the command line, bulk import and the unimplemented server.
- The flush constants of `config.h` are not used. The local `#define`s at block_manager.cc:5 and 22, 32 and 16, override them.
- The `DOMAIN_MAX` macro (dns_db.h:20) spells its bytes as the octal escape `\255`, which is 0xAD. No code uses the macro. The top of the key space in the model is the all-0xFF maximum that the index constructor writes with `memset(~0)` (dns_index.cc:33).
- `IndexSpec.SortByMin`: `std::sort` in `addBlock` (dns_index.cc:234) leaves nodes of equal minimum in no promised order. `SortByMin` is an insertion sort that keeps the older node first. A tie arises in one case only: node n's block is full, its split point is slot 0, and its minimum equals its first domain. The other order is not modelled.
- `IndexSpec.SplitNodesShape`: where k equals node n's minimum, the lemma states the table with the old node first, the order `SortByMin` gives. With the other order the new node comes first, and `setBlkMinMax(n, …)` (dns_index.cc:183) then shrinks the new node to `[min, min)` instead of the old one.
- `DnsIndexes.DnsIndex.AddBlock`: is proved against `SortByMin`, so for a tie it promises the older node first.
- `IndexProofs.SplitRedo`: its abort case holds for the order `SortByMin` gives. There the old node shrinks to `[min, min)` and the redo meets the full block again. With the other order the redo reaches the old node's emptied block and answers OK. The moved domains then sit under the empty range `[min, min)` that `lookupNode` never picks.
- `IndexProofs.AddDomainKeeps`: for the same case, it promises the abort. The other order would answer OK and leave the index with domains no lookup reaches.
- `IndexIpProofs.AddIpJoins`: for the same case with the other order, the redo reaches the emptied block, which does not store the domain, so the assert fails as the model says. The one exception is a domain whose key is `DOMAIN_MIN`: a zeroed slot matches that key and takes the record. `IndexIpProofs.RefusedRedo` and `IndexIpProofs.RetryJoins` share this gap.
- C `assert`s are taken as enabled. Where one fails after something has changed, the model stops with `Abort` and leaves the state as it was then. It does not model the undefined behaviour of a build with `NDEBUG`.
- The `unsigned long` counters of `getNumberRecords` and `getNumberFreeRecords` are unbounded `nat`s. This is exact for any index smaller than 2^64 slots.
- `IndexProofs.AddDomainKeeps`: requires `current_id < 0xFFFFFFFF`. After 2^32 splits the id wraps to 0 and would reuse block 0. `SplitNode` computes that wrap; the lemma does not cover it.
- `IndexIpProofs.AddIpKeeps`: requires `current_id < 0xFFFFFFFF`, for the same wrap.
- `IndexCounts.AddDomainCounts`: requires `current_id < 0xFFFFFFFF`, for the same wrap.
- `IndexReports.SerializeRoundTrip`: requires every id to be below 0xFFFFFFFF. Otherwise `current_id++` wraps to 0, as `IndexSpec.NextId` states.
- `IndexSpec.IndexRoundTrip`: requires fewer than 2^32 nodes, since the count is written as a `uint32_t`.
- `IndexIpProofs.AddIpUnknown`: excludes the domain whose key is `DOMAIN_MIN`. `lookupDomain` compares the key bytes of free slots too, so a zeroed slot can take a record for that key (`IpLemmas.AddIpMinOnEmpty`).
- `IndexReports.CheckQuiet`: excludes an index that stores `DOMAIN_MIN`. The block `check` flags a header that is not above its predecessor, and `DOMAIN_MIN` is its starting predecessor.
- `IndexOps.InitialConsistent`: requires block 0 to hold no `DOMAIN_MAX` header. The first node `[DOMAIN_MIN, DOMAIN_MAX)` does not cover that key, and no domain the codec accepts produces it (`DomainCodec.KeyBelowMax`).
- `DomainCodec.RoundTrip`: excludes an accepted domain ending in a dot. Its TLD is empty, which is entry 0 of the table, so the key ends in zero fill. `idom2domain` (util.cc:43-53) then takes the last byte of the local part as the TLD index. For `abc.` that is `c` (99), and `strcat` reads entry 99 of the 17-entry `tld_domains`. For `.` the local part is empty, and it reads `intdom[-1]`. Neither has a value in the model.
- `DomainCodec.KeysDistinct`: excludes domains ending in a dot, for the same reason.
- `DnsIndexes.IndexIterator.Next`: requires a node after the current one when the block iterator is at its end. The C++ code would read past the node table there.
- `DnsBlocks.BlockIterator.Next`: requires the iterator to be before endptr. At endptr the source's `next()` steps past it and reads past the block. With the corrected `end()` a caller that tests `end()` first never calls it there.
- `DnsBlocks.BlockIterator.End`, `DnsIndexes.IndexIterator.Next` and `DnsIndexes.IndexIterator.End` use the corrected block `end()` (see Findings). As written, the source's `end()` reads past the block for an iterator at endptr (`BlockSpec.EndAsWritten`).
- `DnsIndexes.IterEnd`: `end()` is false at the end of a node whose following blocks are all empty. The lemma states this case apart and does not claim `end()` holds there.
- `FileMapping.FileMapper.Unmap`: requires the entry's count to be positive. An unmatched `unmap` that would take it below zero is not modelled. Such an entry would also keep `flushCached` from ending: `refs > 0` is false for it, so its size counts as cached (file_mapper.cc:75-78), but the victim search wants `refs == 0` (file_mapper.cc:85). Once the total is over `MAX_MAPPED` with that entry the only cached one, the loop at file_mapper.cc:82-91 never ends. `FileMapping.IdleExists` relies on non-negative counts for this reason.
- `BlockCache`'s access tag `t` is set to 0 (dns_db.h:250) and never updated in the C++ code. The model keeps it at its initial 0, and `VictimLowestId` relies on that.
- `DnsIndexes.DnsIndex.Unserialize`: a file shorter than its count says makes it `Abort`. There the C++ code reads past the mapping. A node whose key fields are not zero padded also makes it `Abort`, but only because `Key` cannot represent such a key. The C++ code copies that node with `push_back` (dns_index.cc:64-68) and goes on.
- `Slots.SlotOf`: reads a header byte with `flagDomain` but without `flagUsed` as a free slot. No code writes such a byte, so only a corrupt block file holds one. The iterator (dns_block.cc:460-489) stops at a slot with either flag set, so it would stop there. `DnsBlocks.BlockIterator` skips that slot, because it sees only the three slot states the code writes.
- `FileMapping.FileMapper.FlushCached`: sizes are unbounded `nat`s. In the C++ code, `size` (dns_db.h:231), `mapped_referenced` and `mapped_cached` (file_mapper.cc:71-78) are 32-bit `int`s, and `fileSize`'s unsigned result is narrowed into `size` (file_mapper.cc:44). A file of 2^31 bytes or more, or mapped totals that large, overflow, and the test at file_mapper.cc:82 then no longer compares the true sizes.
- `FileMapping.Flushed`: sums the sizes as unbounded `nat`s too, so it has the same gap.

## Findings

| source | as written | input that shows it | evidently intended | confidence | as-written member | corrected member |
|---|---|---|---|---|---|---|
| dns_index.cc:248 | `getNumberRecords` and `getNumberFreeRecords` (line 256) call `this->getBlock(nodes[i].dnsblock_id)`. `DnsIndex::getBlock(n)` (dns_db.h:198-200) takes a node index and reads `nodes[n].dnsblock_id`, so block `nodes[nodes[i].dnsblock_id].dnsblock_id` is counted. | An index file with one node `[DOMAIN_MIN, DOMAIN_MAX)` naming block 5: it loads, and both loops read `nodes[5]` of a one-node table. Tables the program builds itself hold the ids 0 to n-1 in some order, so there the totals come out right (`IndexMisread.BuiltCountsAgree`). Only an index file with other ids shows the misread. | Count the block of node `i`, that is `getBlock(i)`. Every slot is then counted once, and the two totals add up to `numBlocks` per node. | not executed | IndexMisread.CountsMisread | IndexReports.CountsTotal |
| dns_block.cc:479-489 | `DnsBlock::Iterator::end()` copies `p` to `i` and runs a do/while that increments `i` before its first test, stopping only on a used slot or on `endptr`. An iterator already at `endptr` (slot `numBlocks`) starts the scan at `numBlocks + 1`, never meets `endptr`, and reads past the block. | A fresh database: block 0 is zeroed, so the iterator built by `list-domains` (main.cc:54-55) stops at `endptr` in its constructor (dns_block.cc:460-466), and the first `it.end()` reads past block 0. `crawler.cc:67-69` does the same. | Test `p` against `endptr` first and answer true there, so that `end()` holds exactly when no used slot follows and the empty database lists nothing. | not executed | DnsIndexes.FreshEndReadsPast | DnsBlocks.BlockIterator.End |
