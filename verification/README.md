# QEMU core algorithms in Dafny

This project models the parts of an Android emulator's QEMU in which state, order and arithmetic are
intricate, and proves what they are for. To verify: `dafny verify dfyconfig.toml`.

| Files | What they model |
|---|---|
| `RamList`, `Wire`, `RamSave`, `RamLoad`, `RamOrder`, `RamFlat`, `RamFair`, `Migration`, `RamMachine` | live RAM migration: the sender's cyclic scan over dirty pages, the stream, the receiver on both versions of it, and the two-party protocol under guest writes and lookups that rearrange the block lists |
| `BlockIo`, `Commit` | byte requests over sector drivers, and committing an overlay |
| `IoVec`, `MergeSpec`, `Multiwrite`, `MultiwriteCb` | I/O vectors, merging of write requests, and their completion |
| `AesField`, `AesCipher`, `AesKeySchedule`, `Cbc`, `AesCbc`, `AesRoundTrip`, `AesSpec` | AES by tables, its key schedules, CBC, and the round trips from key to key |
| `Des`, `DesKey`, `DesSpec` | DES, its key schedule, and both against FIPS 46-3 |
| `TbHash`, `TpcMap` | looking up translated blocks, and guest addresses inside them |
| `Icount` | deterministic instruction counting |
| `CBuffer`, `CharPipe`, `BufferedFile`, `Dma` | queues and transfer engines |
| `HostUtils` | 128-bit multiplication |
| `Common`, `Errno`, `Links` | what several of these share |

Code that updates state in place is modelled by classes and methods with loops; each is proved against a
function of the old state, and the properties are proved of those functions. Drivers, backends, guests,
interrupts and receivers are arbitrary: they appear as parameters that list their answers, or as events of
a run, and every theorem is about all of them. Pointers into tables of the source (`tbs`, and the
allocated pipe buffers) are indices, so that memory which is reused stays visible.

## Where the code does not do what it is for

Each of these is stated as an exact condition, and where that does not name the case itself, an instance
is given as well.

- `ram_save_block` starts each scan at the page sent last, so that a guest that stores to it before each call
  keeps all other pages from being sent; a dirty page is sent once enough calls have found that page
  clean, as long as the block list is not rearranged (`RamFair.DirtyIsSent`, `RamFair.RewritingStarves`,
  `RamFair.LookupPutsBack`).
- CBC decryption of a last partial block leaves the deciphered block, not the ciphertext, as the chaining
  value, so that the two directions agree on all messages of a length exactly if it is in whole blocks
  or the cipher changes no block (`Cbc.ChainsAgree`, `AesCbc.AesChainsAgreeByLength`).
- `bdrv_commit` reports success after a failed copy when the backing image has to be re-opened read-only,
  and backing images are ordinarily opened read-only (block.c:614-618 and 469). With drivers that do not
  fail, everything was copied exactly if the overlay's own sectors fit into the backing image
  (`Commit.Overlay.Commit`, `Commit.CommitReadOnly`, `Commit.SuccessWithoutCopy`).
- Merging write requests loses the end of a request that a later-starting one does not reach, and earlier
  data under a filled gap (`MergeSpec.MergeExact`, `MergeSpec.MergeLoses`).
- `charpipehalf_poll` decides by a handler of its own half whether to ask the peer what it can take
  (`CharPipe.Half.Poll`, `CharPipe.Overrunning`).
- `buffered_put_buffer` goes on with new data after its flush has failed, which it does exactly if the
  backend answers an error before it has taken all that waits
  (`BufferedFiles.BufferedFile.PutBuffer`, `BufferedFiles.FailsExactly`, `BufferedFiles.Overtaking`).
- A DMA request on an empty list calls back and is released twice, one whose first map fails is released
  while it is still registered, and one whose later batch is refused never calls back. Without errors and
  refusals the callback comes, after enough maps have succeeded, exactly if no entry is empty
  (`Dma.DmaRequest.Start`, `Dma.DmaRequest.Run`).
- A DMA request drops what a batch has beyond whole sectors and starts the next batch too early, and yet
  reports success. It moves what it should exactly if all its batches are whole sectors. Under maps of
  whole sectors that is certain exactly if every entry is, the list having no empty one (`Dma.MovedExactly`,
  `Dma.Request`, `Dma.EntryByEntry`, `Dma.TwoHalves`).

Two comments in the source say something else than the code. The one above `bdrv_aio_multiwrite`
(block.c:2168-2181) says that callbacks may be called for some requests when it returns -1, and that the
`opaque` fields are left unmodified; no callback is called then (`MultiwriteCb.EveryRun`), and the sort
moves the fields with their requests (`Multiwrite.MergeRequests`).

## Model

| member | source | states |
|---|---|---|
| `RamList.ScanReturns` | arch_init.c:159-170 | The walk of `ram_save_block` over the pages is back at its start after exactly as many steps as there are pages, from any start. |
| `RamList.VisitedOnce` | arch_init.c:123-170 | Within one round no page is visited twice, from any start. |
| `RamList.VisitedAll` | arch_init.c:123-170 | Within one round every page is visited, from any start. |
| `RamList.SortKeeps` | arch_init.c:206-250 | `sort_ram_list` keeps the blocks as a multiset and apart from each other, and leaves them in the order of their offsets. |
| `Wire.NumberBe64` | arch_init.c:137-151 | A 64-bit word written big-endian is read back as the same number. |
| `RamSave.ScanIsFirst` | arch_init.c:123-170 | The page at which the loop stops is the first dirty one in scan order; it comes round without one exactly if none of the pages tested is dirty. |
| `RamSave.SaveBlockSends` | arch_init.c:114-176 | `ram_save_block` puts nothing on the stream if and only if no page at all is dirty; otherwise it sends the record of exactly one dirty page, makes that page clean and leaves every other flag alone. |
| `RamSave.SaveBlockDecreases` | arch_init.c:180-196 | Each page sent lowers `ram_save_remaining` by exactly one, which bounds the flush loop of stage 3. |
| `RamSave.RemainingCounts` | arch_init.c:180-196 | `ram_save_remaining` is the number of dirty pages, and 0 exactly if all are clean. |
| `RamSave.CleanedOnly` | arch_init.c:131-133 | Resetting the migration flag of a page makes it clean; every other flag of every page stays. |
| `RamSave.SaveLoopSends` | arch_init.c:302-310 | The rate-limited loop sends as many pages as the limit admits, or all that are dirty if they are fewer. |
| `RamSave.SectionSends` | arch_init.c:252-337 | How many pages a section sends: all that are dirty in stage 3, otherwise as many as the limit admits, from every page on in stage 1. |
| `RamFair.SendsNearest` | arch_init.c:116-176 | A call sends the dirty page nearest in scan order, and the next scan starts at that very page: no other dirty page falls back, and each comes nearer by as many steps as the scan went on. |
| `RamFair.DirtyIsSent` | arch_init.c:114-176 | Over any calls with guest stores in between that leave the block list in place: a dirty page is sent after at most as many calls as it is steps away, not counting those that find the page sent last dirty again; if all calls do, no other page is sent. |
| `RamFair.RewritingStarves` | arch_init.c:116-123 | A guest that stores to the page sent last before each call keeps every other page from being sent, for any number of calls. |
| `RamFair.LookupPutsBack` | exec.c:2727-2733 | A lookup that rearranges the list can put a dirty page further back. |
| `RamSave.BeginMarksAll` | arch_init.c:269-285 | Stage 1 leaves every page of every block dirty, with all flags set on those that were clean and the others untouched; memory and the set of blocks unchanged, the list in the order of offsets, and the scan at its first page, where it stops at once. |
| `RamSave.FinalStageIsClean` | arch_init.c:322-330 | After a stage 3 call no page is dirty. |
| `RamSave.SaveLiveKeepsMemory` | arch_init.c:252-337 | Saving never changes the guest's memory. |
| `RamLoad.BlockListLoads` | arch_init.c:292-296 | The header's block list is accepted and consumed exactly if and only if the receiver knows every block under its name with the same length; the lengths sum to the announced total. |
| `RamLoad.RecordLoads` | arch_init.c:339-367 | A page record, raw or compressed, with or without its block's name, is parsed exactly and stored on the page it was taken from; the decoder remembers the block. |
| `RamLoad.UnknownBlock` | arch_init.c:353-367 | A record that names a block the receiver does not have is refused if it is compressed, and is a store through a null pointer if it is not. |
| `Migration.BlockLoads` | arch_init.c:129-155 | What one `ram_save_block` call sends is loaded with nothing left over, and afterwards the decoder again remembers the block that the sender would leave out: an omitted block id can always be recovered. |
| `Migration.SectionLoads` | arch_init.c:378-454 | A whole `ram_save_live` section, of any stage and with the rate limit striking anywhere, is loaded exactly, and keeps the two sides in step. |
| `Migration.FirstSectionAccepted` | arch_init.c:390-420 | The stage 1 section is loaded without an error if and only if the receiver has the sender's blocks under the same names and lengths. |
| `Migration.ReorderedInStep` | exec.c:2722-2733 | A lookup on the sender, which moves a block to the head of the list that the scan walks, keeps the two sides in step. |
| `Migration.PointedInStep` | exec.c:2722-2733 | So does one on the receiver. |
| `Migration.StepKeepsInv` | arch_init.c:252-457 | Every event (guest write, which may rearrange the block list, lookup at either party, `ram_save_live`, `ram_load`) keeps: all sections in flight will load, and then every page is dirty at the source or identical at the destination. |
| `Migration.RunKeepsInv` | arch_init.c:114-457 | So does every run, in any interleaving of them. |
| `Migration.QuiescentIsSynced` | arch_init.c:114-457 | When nothing is in flight, each page is still dirty or byte-identical on both sides. |
| `Migration.MigrationConverges` | arch_init.c:321-330 | After any run, with the guest stopped, one stage 3 call and the receipt of what is in flight leave every page of the destination equal to the source's. |
| `RamMachine.IsDupPage` | arch_init.c:96-109 | The word loop answers whether all bytes of a page equal the first. |
| `RamMachine.Sender.GetRamPtr` | exec.c:2722-2741 | A lookup moves the frame's block to the head of the sender's list, while `last_block` stays with its block. |
| `RamMachine.Sender.GuestWrite` | exec.c:2864-2922 | A guest store changes one page and sets its migration flag with others; if a flag of the page was clear, it goes through a lookup first. |
| `RamOrder.StoreDoes` | exec.c:2864-2922 | A guest store changes its page and no other, sets the migration flag and those asked for and clears none, and puts the page's block at the head of the list if a flag was clear. |
| `RamMachine.Sender.SaveBlock` | arch_init.c:114-176 | The loop over dirty flags, `last_block` and `last_offset` in place computes exactly the modelled `ram_save_block`: state, bytes on the stream and whether it returns 0. |
| `RamMachine.Sender.SaveRemaining` | arch_init.c:180-196 | The loops over blocks and pages count exactly the dirty pages. |
| `RamMachine.Sender.SortRamList` | arch_init.c:231-250 | Taking the list apart, sorting and putting it back from the last block on gives the sorted list. |
| `RamMachine.Sender.Restart` | arch_init.c:269-285 | Stage 1's reset of the statics, sort and marking loop, in place. |
| `RamMachine.Sender.WriteHeader` | arch_init.c:290-296 | The header is the total with its flag and then each block's name and length. |
| `RamMachine.Sender.Flush` | arch_init.c:325-328 | The stage 3 flush loop terminates, with the number of dirty pages as its measure, and sends exactly the remaining pages. |
| `RamMachine.Sender.SaveLive` | arch_init.c:252-337 | One call of `ram_save_live`, with the clean-up call, is exactly the modelled step; a failed synchronisation sets the file's error and nothing else. |
| `RamMachine.Receiver.HostFromStreamOffset` | arch_init.c:339-367 | The block of a record is found by name or remembered, the static pointer updated, also when the search fails. |
| `RamMachine.Receiver.CheckBlockList` | arch_init.c:390-420 | The header loop accepts and consumes exactly what the model does, with the same errors. |
| `RamMachine.Receiver.ReadRecord` | arch_init.c:379-453 | One turn of `ram_load`'s loop on either version of the stream, with every error exit. |
| `RamMachine.Receiver.RamLoad` | arch_init.c:369-457 | The whole of `ram_load`: version 3, under which the section is registered, and version 4; others are refused with -EINVAL and nothing is touched, and so is a section whose header is not accepted, with nothing stored. |
| `RamMachine.Receiver.GetRamPtr` | exec.c:2722-2741 | The block that a frame lies in is found and moves to the head of the list, while the decoder's own pointer stays with its block; without one the source aborts. |
| `RamOrder.ToFrontKeeps` | exec.c:2727-2733 | The list rearranged by a lookup holds the same blocks, apart from each other, each where its new number says. |
| `RamOrder.FindFront` | exec.c:2727-2733 | The search by name finds the same block in the rearranged list. |
| `RamOrder.LoadEither` | arch_init.c:339-457 | Whether the receiver's list has been rearranged makes no difference to what a section loads: the same bytes are accepted or refused, the same pages stored, and the same block remembered. |
| `RamFlat.FlatRecordLoads` | arch_init.c:421-451 | A version 4 record, raw or compressed, stores its page at its address, or aborts exactly if no block holds the address. |
| `RamFlat.FlatStreamLoads` | arch_init.c:369-457 | A version 4 stream of pages loads to its last byte if and only if every page lies in some block; memory is then the result of its stores in turn, however the list of blocks is rearranged on the way. |
| `BlockIo.Device.Read` | block.c:904-915 | `bdrv_read` returns exactly the sectors asked for or an error, -ENOMEDIUM without a medium and -EIO out of range; it succeeds with a driver that does not fail if and only if they are in range. |
| `BlockIo.Device.Write` | block.c:951-971 | `bdrv_write` changes exactly its sectors, or returns an error having changed nothing outside them, and nothing at all when it is refused for the medium, write protection or range, each with its own code. |
| `BlockIo.Device.Pread` | block.c:973-1016 | `bdrv_pread` returns exactly the bytes [offset, offset+count) through unaligned head, whole sectors and partial tail; with a driver that does not fail it succeeds if and only if the byte range is on the device. |
| `BlockIo.Device.Pwrite` | block.c:1018-1065 | `bdrv_pwrite` changes exactly the bytes [offset, offset+count); on an error, only bytes of that range may have changed; with a driver that does not fail it succeeds if and only if the byte range is on the device and the device is writable. |
| `BlockIo.Device.WriteThenRead` | block.c:973-1065 | Reading back after a write returns what was written; with a driver that does not fail both succeed for every range on a writable device. |
| `BlockIo.InRangeIsReachable` | block.c:874-901 | A request that is in range by bytes has all the sectors it touches on the device, whose length `bdrv_getlength` makes whole sectors. |
| `Commit.Overlay.CopyLoop` | block.c:796-821 | The copy loop never changes what the guest sees, on any exit; when it gets to the end, the backing image holds the guest's view, and with drivers that do not fail it does if and only if the overlay's own sectors fit into the backing image; it terminates because run lengths are positive. |
| `Commit.Overlay.Commit` | block.c:745-857 | `bdrv_commit` keeps the content that the overlay and its backing image make up whatever fails, including make_empty; the drive itself is lost, and reads nothing, exactly when a reopening for reading fails; which result it returns in each case; on both paths a copy that went well leaves the backing image equal to that content; for a writable backing image success means that, and with drivers that do not fail it comes if and only if the overlay's own sectors fit. The overlay is emptied exactly after a copy that went well, if its format can be, and the result of that is what is returned. |
| `Commit.CommitAndEmpty` | block.c:745-857 | After a commit that copied everything and emptied the overlay, the guest reads every sector from the backing image, and reads what it did before. |
| `Commit.CommitReadOnly` | block.c:745-857 | For a backing image that is opened read-only, as block.c:614-618 opens it, success is always reported with drivers that do not fail; everything was copied if and only if the overlay's own sectors fit, and with a sector beyond the end that is not all zeros the image does not hold the guest's view. |
| `Commit.SuccessWithoutCopy` | block.c:835-851 | The smallest such case: a failed copy is reported as success, with any driver. |
| `IoVec.IoVector.Add` | cutils.c:157-169 | A chunk is added at the end and the size kept up. |
| `IoVec.IoVector.Copy` | cutils.c:178-209 | Appends exactly the bytes from `skip` on, at most `size` of them, however the source is cut into chunks. |
| `IoVec.IoVector.Concat` | cutils.c:211-214 | Appends exactly the first bytes of the source vector. |
| `IoVec.IoVector.ToBuffer` | cutils.c:231-240 | The bytes are gathered at the front of the buffer, and nothing behind them changes. |
| `IoVec.IoVector.FromBuffer` | cutils.c:242-256 | Exactly the first bytes of the vector are replaced, its shape stays, also when the buffer ends inside a chunk. |
| `Multiwrite.SortRequests` | block.c:2076-2103 | The requests end up ordered by sector and are the same requests. |
| `Multiwrite.CombineVectors` | block.c:2129-2154 | The merged vector holds the first request up to the start of the second, zeros for the gap, then the second; a zero buffer exists exactly if there is a gap. |
| `Multiwrite.MergeOne` | block.c:2108-2163 | One turn of the loop: merged exactly if the requests touch or the driver wants it, and the chunks stay within IOV_MAX; the new vector and buffer go into slot i and nowhere else. |
| `Multiwrite.MergeRequests` | block.c:2097-2166 | The requests that remain in place are the merged list of the sorted ones; slot i records a vector if and only if request i was merged and a buffer if and only if a gap was filled, and none is recorded twice; the vector of every request that remains is the caller's or in a slot; callbacks move with the sort only; without a driver hook only touching requests are merged, and all of them if the chunks fit. No request that remains has more chunks than IOV_MAX, unless the caller's had. |
| `Multiwrite.TouchingMergePreserves` | block.c:2097-2166 | When only requests that touch or overlap are merged, as without a driver hook for gaps, and no request ends before the one it is merged with, submitting the merged requests leaves the same disk as the sorted originals in order. |
| `MergeSpec.MergedAgrees` | block.c:2108-2163 | After every merge step, each disk position holds what the requests so far leave there, or was wiped out by a merge and not written since. |
| `MergeSpec.MergePreserves` | block.c:2097-2166 | With gaps over zeros and nothing wiped out for good, the merged list and the originals leave the same disk. |
| `MergeSpec.MergeExact` | block.c:2097-2166 | The two leave the same disk for all data and all disks with zero gaps if and only if every position that a merge cuts off, or fills over earlier data, is covered by a later request: a condition on positions and lengths alone. |
| `MergeSpec.LossShows` | block.c:2129-2134 | Whenever that condition fails, data exist on which the two disks differ. |
| `MergeSpec.MergeLoses` | block.c:2129-2134 | A two-sector write followed by a one-sector write to the same start loses its second sector. |
| `MultiwriteCb.StepKeepsInv` | block.c:2061-2074 | Every event of submission and completion keeps the count of outstanding requests, the first error and the moment of the callbacks right. |
| `MultiwriteCb.EveryRun` | block.c:2182-2255 | In every interleaving: the control block is not touched after it is freed; a multiwrite that returns -1 calls nobody and leaves nothing with the driver; one that returns 0 calls every callback exactly once, in order, after everything submitted has finished, with the first negative result. |
| `MultiwriteCb.ResultsAreTold` | block.c:2061-2074 | The results over which that first negative one is taken are all that the driver reported and the -EIO of a refused submission, in order. |
| `MultiwriteCb.FirstNegativeSnoc` | block.c:2065-2067 | Keeping the first error when results come one by one. |
| `MultiwriteCb.Multiwrite.UserCb` | block.c:2047-2059 | The loop calls each callback once, in order, with the error. |
| `MultiwriteCb.Multiwrite.CompleteOne` | block.c:2061-2074 | `multiwrite_cb` on the control block in place is the modelled completion. |
| `MultiwriteCb.Multiwrite.SubmitOne` | block.c:2226-2242 | One turn of the submission loop: the run goes on with the call, then everything the driver does during it that can happen, then its result, which is a failure exactly if it did not take the request. |
| `MultiwriteCb.Multiwrite.Submit` | block.c:2224-2255 | The whole submission is the run of the state machine that the driver's events make, up to the first request that is not taken, with the dummy request completed at the end; it returns -1 exactly if the first request is not taken. |
| `AesField.XtimeReduces` | aes.c:47-58 | Doubling in the field is reduction by the AES polynomial. |
| `AesField.InvMixMix` | aes.c:47-58 | The matrix behind the Td tables undoes that behind the Te tables, for every column. |
| `AesField.InvMixLinear` | aes.c:854-876 | InvMixColumns distributes over key addition, which is why round keys may be transformed beforehand. |
| `AesCipher.TeWordIsRound` | aes.c:981-1036 | One word of the Te tables is SubBytes, ShiftRows, MixColumns and AddRoundKey of FIPS 197 section 5.1 on one column. |
| `AesCipher.TdWordIsRound` | aes.c:1171-1227 | One word of the Td tables is a round of the Equivalent Inverse Cipher of section 5.3.5 on one column. |
| `AesCipher.Te4WordIsLastRound` | aes.c:1037-1069 | The masked Te4 lookups are the last round, without MixColumns. |
| `AesCipher.Td4WordIsLastRound` | aes.c:1228-1260 | The masked Td4 lookups are the last inverse round. |
| `AesCipher.InvRoundsUndo` | aes.c:885-1261 | After r inverse rounds the state is that of the cipher r rounds before its end, up to the pending substitution and shift. |
| `AesCipher.DecryptUndoesEncrypt` | aes.c:885-1261 | For any S-box bijection, any number of rounds, any schedule and its reversed and transformed form, decryption undoes encryption on every block. |
| `AesCipher.UsesOnly` | aes.c:885-1261 | Enciphering and deciphering depend on exactly the first 4*(rounds+1) words of a schedule and on none behind them. |
| `AesCipher.GetU32` | aes.c:43-44 | GETU32 reads four bytes as a column. |
| `AesCipher.PutU32` | aes.c:43-44 | PUTU32 writes a column as four bytes. |
| `AesCipher.EncryptWords` | aes.c:981-1068 | The double-round loop on s0..s3 and t0..t3, with the last round after it, computes the cipher. |
| `AesCipher.Encrypt` | aes.c:885-1070 | `AES_encrypt` writes exactly the sixteen bytes of the cipher, also in place. |
| `AesCipher.DecryptWords` | aes.c:1171-1260 | The double-round loop of decryption computes the Equivalent Inverse Cipher. |
| `AesCipher.Decrypt` | aes.c:1076-1261 | `AES_decrypt` writes exactly the sixteen bytes of the inverse cipher, also in place. |
| `AesKeySchedule.RconDoubles` | aes.c:719-726 | Each round constant is the double of the one before it. |
| `AesSpec.WordIs` | aes.c:731-826 | The words of KeyExpansion in FIPS 197: which word each is added to, and where it is rotated, substituted and given a round constant, with eight words also half way. |
| `AesSpec.WordSteps` | aes.c:757-763 | RotWord and SubWord byte by byte. |
| `AesSpec.RowsShift` | aes.c:981-1036 | ShiftRows moves row r by r columns, and its inverse back. |
| `AesSpec.MixIsProduct` | aes.c:47-58 | MixColumns and its inverse multiply a column by the polynomials of FIPS 197 modulo x^4+1. |
| `AesSpec.StateByColumns` | aes.c:959-965 | A block fills the state column by column. |
| `AesSpec.KeyByColumns` | aes.c:959-965 | A word of a round key is added to its column, first byte to first row. |
| `AesKeySchedule.RotSubStepIs` | aes.c:757-763 | The masked Te4 lookups and rcon are SubWord of RotWord plus the round constant. |
| `AesKeySchedule.SetEncryptKey` | aes.c:731-826 | For keys of 128, 192 and 256 bits the schedule's first 4*(rounds+1) words are exactly the words of KeyExpansion in FIPS 197, and no other word changes; other lengths are refused without reading the key. |
| `AesKeySchedule.ReverseRoundKeys` | aes.c:846-852 | The swapping loop reverses the order of the round keys in place and leaves what lies behind them. |
| `AesKeySchedule.InvMixWordIs` | aes.c:856-875 | A Td lookup of a Te4 lookup is InvMixColumns of a column. |
| `AesKeySchedule.InvMixRoundKeys` | aes.c:854-876 | All round keys but the first and the last are transformed. |
| `AesKeySchedule.SetDecryptKey` | aes.c:832-878 | The schedule becomes the decryption schedule of the one that `AES_set_encrypt_key` makes of the same key, and the words behind it do not change. |
| `AesRoundTrip.SetKeys` | aes.c:731-878 | The two set-ups of one key give two schedules that belong to each other, exactly for keys of 128, 192 and 256 bits. |
| `AesRoundTrip.BlockRoundTrip` | aes.c:731-1261 | For every key of a supported length and every block, `AES_decrypt` under `AES_set_decrypt_key` undoes `AES_encrypt` under `AES_set_encrypt_key`, between any buffers and in place. |
| `AesRoundTrip.CbcRoundTrip` | aes.c:731-1314 | So does `AES_cbc_encrypt` for messages of every length, between any buffers and in place; the two runs leave the same chaining value if and only if the length is in whole blocks or the last input block is not changed by the cipher. |
| `Cbc.RoundTrip` | aes.c:1265-1314 | CBC decryption of CBC encryption returns the data, for every length, with a partial last block padded by zeros. |
| `Cbc.EncryptByBlocks` | aes.c:1272-1289 | Each block of ciphertext is the cipher of the block of data, padded by zeros if it is the last, exclusive-or the block of ciphertext before it or the initial value; the last one is the chaining value. |
| `Cbc.ChainsAgree` | aes.c:1285-1311 | The two directions leave the same chaining value if and only if the length is a multiple of 16 or the last input block is a fixed point of the block cipher: after a partial block decryption keeps the deciphered block, not the ciphertext. |
| `Cbc.ChainsAgreeByLength` | aes.c:1265-1314 | For a given length, the two directions leave the same chaining value on all data and all initial values if and only if the length is a multiple of 16 or the block cipher changes no block at all. |
| `Cbc.ProbeMoves` | aes.c:1302-1311 | For every other length and every block that the cipher changes there are data for which they do not. |
| `Cbc.DecryptPrefix` | aes.c:1290-1312 | Decryption does not depend on what lies behind the whole blocks that the length takes. |
| `AesCbc.DecipheringInverts` | aes.c:1265-1314 | Block decryption under a decryption schedule inverts block encryption, as CBC needs. |
| `AesCbc.AesCbcRoundTrip` | aes.c:1265-1314 | With AES: CBC decryption undoes CBC encryption for every message, and the chaining values agree if and only if the length is in whole blocks or the last input block is not changed. |
| `AesCbc.AesChainsAgreeByLength` | aes.c:1265-1314 | With AES, for a given length they agree on all data if and only if the length is in whole blocks or the key enciphers every block to itself. |
| `AesCbc.EncryptBuffer` | aes.c:1274-1292 | The enc branch, on separate buffers or in place, writes the CBC ciphertext and leaves its chaining value. |
| `AesCbc.DecryptBuffer` | aes.c:1293-1313 | The dec branch, on separate buffers or in place, writes the CBC plaintext and leaves its chaining value. |
| `AesCbc.CbcEncrypt` | aes.c:1265-1314 | `AES_cbc_encrypt` as a whole. |
| `Des.FinalUndoesInitial` | d3des.c:322-394 | The delta swaps and rotations at the end undo those at the beginning. |
| `Des.InitialUndoesFinal` | d3des.c:322-394 | And the other way round. |
| `Des.FeistelUndone` | d3des.c:348-358 | A round with the halves exchanged is undone by the same key, whatever the SP tables hold. |
| `Des.RoundsUndone` | d3des.c:347-372 | Sixteen rounds are undone by the same keys in the opposite order. |
| `Des.CoreUndone` | d3des.c:322-394 | `desfunc` with the reversed schedule undoes `desfunc`. |
| `Des.RoundLoop` | d3des.c:347-372 | The loop over eight double rounds, reading keys through the pointer. |
| `Des.Desfunc` | d3des.c:322-394 | `desfunc` on its two words in place. |
| `DesSpec.InitialIsIp` | d3des.c:329-345 | The swaps and rotations at the beginning are the initial permutation of FIPS 46-3, bit by bit, each half rotated by one bit. |
| `DesSpec.FIsBoxes` | d3des.c:348-358 | A round looks into table j at group j of the expansion E of the half, bit by bit, exclusive-or group j of the round key. |
| `DesSpec.FeistelIsRounds` | d3des.c:347-372 | A pass of the loop is two rounds of FIPS 46-3 on halves kept rotated by one bit. |
| `DesSpec.CoreIsDes` | d3des.c:322-394 | `desfunc` is DES for any S-boxes: the initial permutation of its result is that of its input after the sixteen rounds, halves exchanged. |
| `DesKey.ShiftRotates` | d3des.c:82-91 | Shifting the registers place by place moves each half as the source's index arithmetic does. |
| `DesKey.TotalRotation` | d3des.c:57-58 | The entries of `totrot` are the running totals of the left shifts of FIPS 46-3. |
| `DesSpec.KeyGroupIs` | d3des.c:94-120 | Group j of a cooked round key is the six bits that permuted choice 2 picks for it from the shifted registers. |
| `DesSpec.RoundInput` | d3des.c:347-372 | What table j is given in round i, from the key and the half block. |
| `DesKey.SchedulesAreReversed` | d3des.c:78-79 | DE1 stores the round keys in the opposite order of EN0. |
| `DesKey.UnscrunScrunch` | d3des.c:152-176 | `unscrun` undoes `scrunch`. |
| `DesKey.FirstIsLeft` | d3des.c:152-163 | The first byte of a block is the leftmost of its word. |
| `DesKey.ScrunchUnscrun` | d3des.c:152-176 | And the other way round. |
| `DesKey.DecipherUndoesEncipher` | d3des.c:142-150 | `des` with the schedule of `deskey(key, DE1)` undoes `des` with that of `deskey(key, EN0)`, and the reverse, for every key, every block and all SP tables. |
| `DesKey.BlockRoundTrip` | d3des.c:67-150 | A block enciphered after `deskey` in one direction is deciphered after `deskey` in the other with the same key, between any buffers and in place. |
| `DesKey.KeyRegister.Deskey` | d3des.c:67-100 | `deskey` leaves in KnL exactly the schedule for the key and direction. |
| `DesKey.KeyRegister.Cookey` | d3des.c:102-122 | `cookey` regroups each pair of raw words and loads the register. |
| `DesKey.KeyRegister.Usekey` | d3des.c:133-140 | The register becomes a copy of the key. |
| `DesKey.KeyRegister.EncipherBlock` | d3des.c:142-150 | `des` on one block, in place if the buffers are one. |
| `DesKey.PermuteKey` | d3des.c:73-77 | The loop picks the key bits of permuted choice 1. |
| `DesKey.RotateRegisters` | d3des.c:82-91 | The two loops rotate both registers by the total shift. |
| `DesKey.RoundKeyWords` | d3des.c:92-95 | The last loop builds the two raw words of a round key by permuted choice 2. |
| `TbHash.PageHasOneRun` | exec-all.h:177-190 | All addresses of a page have their cache slots in one run of 64, which depends on the page only. |
| `TbHash.NextPage` | exec.c:932-937 | A block of at most a page ends in its first page or the next, with 32-bit wrap-around. |
| `TbHash.MatchIsAtHome` | cpu-exec.c:136-138 | A block that matches belongs to the bucket that the lookup searches. |
| `TbHash.AnyMatchIsFound` | cpu-exec.c:140-160 | So a matching block anywhere in the table is found. |
| `TbHash.RelinkedOk` | cpu-exec.c:170-175 | Unlinking a block through ptb1 and putting it at the head keeps every bucket an acyclic chain of its own blocks. |
| `TbHash.MovedHasTheSame` | cpu-exec.c:170-175 | The chain has the same blocks as before. |
| `TbHash.MissLink` | cpu-exec.c:165-175 | After a miss *ptb1 is null unless it is the bucket's head, even if a flush has made the last block stale or given its memory to the new one. |
| `TbHash.Tables.Search` | cpu-exec.c:140-163 | The walk ends at the first block of the chain with the same pc, cs_base, flags and physical pages, or at the end. |
| `TbHash.Tables.Relink` | cpu-exec.c:170-175 | The three assignments do exactly the move to the front. |
| `TbHash.Tables.LinkPhys` | exec.c:1236-1240 | A new block is linked at the head of its chain, and nothing else changes. |
| `TbHash.Tables.GenCode` | exec.c:901-940 | A new block that matches, of the given size, that records the physical pages in which it starts and ends, at the head of its chain, after a flush if no block is left. |
| `TbHash.Tables.Flush` | exec.c:638-674 | All chains and all cache slots are empty. |
| `TbHash.Tables.FindSlow` | cpu-exec.c:128-179 | Returns the chain's first match, moved to the front, with the rest in order; or a new block at the front if there is none; the cache gets the block in one slot; all other chains and slots stay, unless there was a flush. |
| `TbHash.MatchIsCurrent` | cpu-exec.c:143-160 | A block that matches the key and mapping, and records the pages it was translated from, lies at the same physical address now, byte by byte to its end, also in the next page. |
| `TbHash.Tables.FindAndCache` | cpu-exec.c:128-179 | Whatever `tb_find_slow` returns is a translation of the very bytes that are mapped now, and the cache stays coherent. |
| `TbHash.Tables.FindFast` | cpu-exec.c:181-197 | With a coherent cache, returns a translation of the code mapped now; a block cached under the key is returned with nothing changed, so the same key finds the same block again while its slot is untouched. Every byte it was translated from is mapped where it was then. |
| `TbHash.Tables.Run` | cpu-exec.c:128-197 | Over any run of lookups and of pages remapped with `tlb_flush_page`, each block returned is, byte by byte, the translation of what was mapped when it was returned, for the key asked for. |
| `TbHash.HitKeepsCoherence` | cpu-exec.c:177-178 | A hit keeps the cache coherent with the chains and the mapping. |
| `TbHash.MissKeepsCoherence` | cpu-exec.c:165-178 | So does a miss, with or without a flush. |
| `TbHash.Tables.FlushPage` | exec.c:1771-1784 | `tlb_flush_page` leaves no slot to the page nor to the one before it. |
| `TbHash.FlushKeepsCoherence` | exec.c:1771-1784 | After a page is remapped and flushed, the cache is coherent with the new mapping. |
| `TpcMap.SearchGuestPc` | exec-all.h:225-249 | The binary search returns the guest address of the last pair that is not beyond the translated address, and 0 exactly when there is none to search or the address lies before the first (or stands for 0). |
| `Icount.BudgetIsLeast` | cpus.c:598-600 | The budget is the least number of instructions that reaches the deadline. |
| `Icount.Cpu.InterruptStops` | exec.c:1599-1600 | After an interrupt no block starts, whatever its length: nothing is executed and the count of instructions is not touched. |
| `Icount.Cpu.RunBlock` | gen-icount.h:8-34 | A block runs exactly if the flag is clear and it fits the 16-bit counter; the count of executed instructions stays exact, also when an exception gives instructions back. |
| `Icount.Cpu.ExecNocache` | cpu-exec.c:102-125 | The shortened block executes exactly what is left, and its length never reaches the cap. |
| `Icount.Cpu.Expire` | cpu-exec.c:666-692 | The refill moves instructions from the overflow to the counter and loses none; the block then fits or the budget is in its last part; otherwise the rest is executed and the loop ends. |
| `Icount.Cpu.CpuExec` | cpu-exec.c:655-695 | Over any sequence of blocks, exceptions and interrupts `qemu_icount - (low + extra)` grows by exactly what is executed, which is what the blocks that ran execute and a last part; the loop ends before the turns do only with the budget used up, the flag raised or an exception; the counter is refilled no more often than the budget needs. |
| `Icount.Cpu.QemuCpuExec` | cpus.c:592-627 | The counter grows by exactly the instructions executed, never more than the budget, and by all of it if nothing but the budget ended the slice; a pending interrupt flag means that none is executed. If nothing ended it early, what was executed is exactly what the blocks that ran execute. |
| `CBuffers.RingShrinks` | cbuffer.c:117-149 | Reading the first bytes of a ring and stepping over them, with wrap-around, leaves the rest in order. |
| `CBuffers.CBuffer.Write` | cbuffer.c:81-114 | As many bytes as there is room for are added at the end, across the wrap-around. |
| `CBuffers.CBuffer.Read` | cbuffer.c:117-149 | The first bytes are taken out in order, as many as asked for or held. |
| `CBuffers.CBuffer.ReadPeek` | cbuffer.c:152-164 | The whole prefix of the contents that lies in one piece, empty only if nothing is held. |
| `CBuffers.CBuffer.ReadStep` | cbuffer.c:168-180 | Exactly that many of the first bytes are dropped. |
| `CBuffers.CBuffer.WritePeek` | cbuffer.c:52-66 | Where free room begins, and all of the room in one piece. |
| `CBuffers.CBuffer.WriteStep` | cbuffer.c:70-77 | What was held stays in front; what lies at the write position becomes part of the contents as far as there is room. |
| `CBuffers.CBuffer.WriteInPlace` | cbuffer.c:52-77 | Peeking, storing and stepping adds the stored bytes at the end. |
| `CharPipe.Buffers.Alloc` | charpipe.c:46-61 | A buffer that is empty and in no chain: the first free one, or a new one. |
| `CharPipe.Buffers.Free` | charpipe.c:64-68 | The buffer becomes the first free one. |
| `CharPipe.HeldHead` | charpipe.c:164-199 | What a chain holds begins with what its first buffer holds. |
| `CharPipe.DropOk` | charpipe.c:172-177 | Freeing the first buffer leaves the rest linked and apart from the free list. |
| `CharPipe.Half.WriteDirect` | charpipe.c:106-126 | The peer gets a prefix of the data, never more at a time than it says it can take, and exactly as much as its answers before the first 0 allow. |
| `CharPipe.Half.WriteBuffered` | charpipe.c:131-152 | What is left over is added behind all that is held, in as many buffers as it needs. |
| `CharPipe.Half.WriteFirst` | charpipe.c:96-126 | Nothing goes to the peer directly while bytes are held, and everything does if the peer has no handler to ask. |
| `CharPipe.Half.Write` | charpipe.c:96-153 | Every write accepts its full length; delivered followed by held bytes grow by exactly the data; nothing is delivered past data that is held. With nothing held before, as much is delivered at once as the peer's answers allow. |
| `CharPipe.Half.PollTurn` | charpipe.c:164-199 | One turn: an empty buffer is freed; otherwise the peer is asked, if this half has a handler; on 0 the loop ends, and on a positive answer exactly as many bytes are delivered as it and the part that can be peeked at allow. |
| `CharPipe.Half.Poll` | charpipe.c:156-200 | Delivered followed by held bytes stay the same; the peer is asked what it can take only if this half has a handler of its own, in which case it is never overrun; without one everything is delivered at once, and the peer is overrun exactly if anything was held; with one, a peer that has none is never given anything. The answers it gets are the peer's next ones, all positive but a last 0; bytes stay held exactly behind such a 0; at least one byte is delivered for each positive answer, and in all no more than they allow. |
| `CharPipe.OthersKeep` | charpipe.c:43-68 | An operation on one half leaves the buffers of another as they are, with what they hold, although all share the free list. |
| `CharPipe.Half.Do` | charpipe.c:95-200 | Any operation of a half conserves its bytes in order, and touches no buffer but its own and the free ones. |
| `CharPipe.Run` | charpipe.c:95-200 | For both directions of a pipe, over any interleaving of writes, polls and changes of handlers at either end: delivered followed by held bytes are all bytes written, in order. |
| `CharPipe.Overrunning` | charpipe.c:96-200 | A peer that says it can take nothing is not given a byte that is written, but gets it from the poll of a half without a handler. |
| `CharPipe.Half.Close` | charpipe.c:81-92 | All buffers go back to the free list, each once. |
| `BufferedFiles.BufferedFile.Append` | buffered_file.c:48-70 | The bytes are added behind those that wait, also when the buffer has to grow. |
| `BufferedFiles.BufferedFile.Flush` | buffered_file.c:72-107 | A prefix of the waiting bytes reaches the backend and exactly the rest still waits; how many, whether it fails or freezes and which answers are left follows from the backend's answers before the call. |
| `BufferedFiles.FailsExactly` | buffered_file.c:81-101 | A flush fails if and only if an error is answered before the answers ahead of it have taken all that waits. |
| `BufferedFiles.BufferedFile.PutDirect` | buffered_file.c:127-148 | A prefix of the new bytes reaches the backend; how many, and why the loop ends, follows from the answers and the limit before the call. |
| `BufferedFiles.BufferedFile.PutBuffer` | buffered_file.c:109-167 | While no error is flagged, accepted followed by waiting bytes grow by exactly the data. In terms of the state before the call: which result it has, and that new bytes overtake waiting ones if and only if the flush before them fails, the limit has not been passed and the backend's next answer is positive. Unless there is an error, bytes are left waiting only behind a pause or the limit. |
| `BufferedFiles.Overtaking` | buffered_file.c:109-167 | Two calls in which a byte has to wait and the next one reaches the backend before it. |
| `BufferedFiles.Conserve` | buffered_file.c:109-167 | If no new byte overtakes a waiting one, nothing is lost or reordered. |
| `BufferedFiles.BufferedFile.RateTick` | buffered_file.c:231-251 | A tick starts a new interval and flushes, unless the output is frozen; no byte is lost, and bytes are left waiting only behind a pause, the limit or an error. |
| `BufferedFiles.BufferedFile.Drain` | buffered_file.c:176-180 | Closing puts out all that waits, unless there is an error. |
| `BufferedFiles.BufferedFile.Produce` | arch_init.c:302-310 | The loop that asks `buffered_rate_limit` before each put never piles up data: unless there is an error no more than one item waits after it, nothing is lost or reordered, and it stops early only for a pause or the limit. |
| `BufferedFiles.BufferedFile.SetRateLimit` | buffered_file.c:208-222 | The limit is the largest with which ten intervals stay within the rate, and stays as it was after an error. |
| `BufferedFiles.BufferedFile.Run` | buffered_file.c:48-251 | Over any sequence of puts, ticks, rate changes and backend answers, as long as no error is flagged, accepted followed by waiting bytes are all bytes submitted, in order. |
| `Dma.SgList.Add` | dma-helpers.c:21-32 | An entry is added at the end and the size kept up. |
| `Dma.DmaRequest.MapSome` | dma-helpers.c:97-109 | The mapped ranges continue the list exactly from the cursor on, over any partial maps; it stops only at the end of the list or at a map that fails. |
| `Dma.DmaRequest.Callback` | dma-helpers.c:82-131 | A batch continues where the last one ended, at the sector behind those of the batches before it; the user's callback is called exactly when the list is at its end or there was an error. |
| `Dma.PlacedExactly` | dma-helpers.c:88-89 | All batches start where their bytes belong if and only if every batch but the last is whole sectors; each one that does starts at sector start + bytes-done/512. |
| `Dma.MovedExactly` | dma-helpers.c:88-121 | The block layer is asked to move all bytes, to or from consecutive positions from the first sector on, if and only if every batch is whole sectors: what a batch has beyond them goes nowhere. |
| `Dma.DmaRequest.Reschedule` | dma-helpers.c:54-69 | A retry after a failed map goes on from the same place, and ends, submits or waits again as a completion would. |
| `Dma.DmaRequest.Start` | dma-helpers.c:147-169 | The start is sound, returning a request under way or none with nothing left behind, if and only if the list is not empty and its first entry maps; the first batch starts at the given sector; an empty list calls the callback and releases twice, a failed first map releases a request that is still registered. |
| `Dma.DmaRequest.TakeTurn` | dma-helpers.c:54-131 | A completion or a retry ends the request, or makes progress by at least a byte if it maps something and no entry is empty; its batch starts behind the sectors of all before it, and whole entries and maps keep everything whole sectors. |
| `Dma.DmaRequest.Run` | dma-helpers.c:54-131 | Over any run of partial maps, failures and retries the callback is called at most once; without an error only after the ranges submitted are the scatter-gather list, in order. As soon as more turns have mapped something than bytes were left, and with no batch failed or refused, it has been called if and only if no entry is empty; it is never called if a later batch is refused. The batches of the run start where their bytes belong if and only if all but the last are whole sectors, and they all are if all entries and maps are; the batch under way is then at sector start + bytes-done/512. |
| `Dma.Request` | dma-helpers.c:54-184 | From the start on: a request that reports success has moved the whole list, in order, to or from the positions from the given sector on, if and only if all its batches were whole sectors, which they are if all entries and maps are. |
| `Dma.EntryByEntry` | dma-helpers.c:82-131 | Conversely, any list without empty entries can be mapped so that success is reported and the list was moved as it should if and only if every entry is whole sectors. |
| `Dma.TwoHalves` | dma-helpers.c:82-131 | Two entries of 256 bytes, of which the second cannot be mapped at first: both batches are at the start with no sector to move, and the result is 0. |
| `HostUtils.Add128` | host-utils.c:34-41 | The 128-bit sum modulo 2^128, with the carry found by comparison. |
| `HostUtils.Neg128` | host-utils.c:43-48 | The two's complement modulo 2^128. |
| `HostUtils.Mul64` | host-utils.c:50-73 | The exact product from four partial products and two shifted additions: low and high are its two halves. |
| `HostUtils.Mulu64` | host-utils.c:76-83 | The exact unsigned product, low and high being its two halves. |
| `HostUtils.Muls64` | host-utils.c:86-104 | The exact signed product, the most negative operands included; low and high are its two halves in two's complement. |
| `HostUtils.Schoolbook` | host-utils.c:50-73 | The product in base 2^32 that the four partial products add up to. |

## Left out

- RamMachine.Receiver.RamLoad: an end of the stream inside a record is reported as -EIO at once, where the source reads zeros and looks at the error afterwards.
- RamMachine.Sender.SaveLive: the bandwidth estimate and the decision to go on to stage 3 that stage 2 returns.
- RamList.SortKeeps: addresses and lengths are counted in target pages of 1024 bytes (ARM), and blocks are multiples of them.
- Migration.RunKeepsInv: a lookup of an address in no block, for which the source aborts, changes nothing.
- BlockIo.Device.Write: the dirty bitmap, `wr_highest_sector` and growable devices.
- Multiwrite.MergeRequests: vectors and sector numbers are unbounded, so that overflow of `size_t` and `int64_t` does not occur; `qsort` is any sort; the contents of a buffer are those at the time of the merge.
- MultiwriteCb.EveryRun: callbacks that start further requests, and freeing the recorded vectors.
- AesCipher.DecryptUndoesEncrypt: the literal tables; they are taken to be what the formulas above them say, over any S-box bijection.
- Des.CoreUndone: the contents of the SP tables, which it does not depend on, and `unsigned long` wider than 32 bits.
- TbHash.Tables.GenCode: code generation itself, page lists, direct jumps and `tb_phys_invalidate`; a translation that faults half way.
- TbHash.Tables.FindFast: the mapping does not change during a lookup.
- Icount.Cpu.CpuExec: interrupt delivery, `longjmp` and everything in the loop that does not touch the counter; `cpu_io_recompile` is an exception like any other.
- CharPipe.Run: receivers that write back into the pipe from their callback, and pipes beyond one.
- BufferedFiles.BufferedFile.SetRateLimit: negative rates.
- BufferedFiles.BufferedFile.Run: what happens after an error has been flagged.
- BufferedFiles.BufferedFile.Drain: a backend that never becomes ready again makes `buffered_close` wait for ever; here the call then returns and says that it is still waiting.
- Dma.DmaRequest.Run: cancelling, and the overflow of addresses.
- Dma.MovedExactly: what a driver does with a vector that is longer than the sectors it is asked for.
- `charbuffer_write` and `charbuffer_poll`, which work like the pipe halves over one more driver.
- `qemu_iovec_memset`, block statistics, snapshots, image formats and drive options.
- Sockets, files, threads, timers, signals, the monitor, keyboard tables and disassembly.
