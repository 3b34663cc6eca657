# Deduplicating ciphertext index of the fscrypt block layer, in Dafny

This is a model of the core of `crypto.c`, a modified fscrypt block-encryption layer for f2fs. Alongside ordinary per-block encryption, it keeps a content-addressed index, `cryptArray`. The index records the 16-byte digest of each ciphertext page it produces together with the producing inode. Nothing is recorded when the table is full, or when a digest that `strncmp` reports equal is already recorded; in that case the first recorder stays. An entry for inode number 0 is the exception: a later insert may reuse its slot. When a page is read back, decryption runs as the inode recorded for the page's digest, and with the block number that a separate fingerprint table recovers. This lets a block that storage has deduplicated away from its writer still be decrypted.

The model has five modules:

- `Wrappers` (`wrappers.dfy`): `Option` and `Result`.
- `KernelTypes` (`kernel_types.dfy`): the fixed-width types (`u32`, `u64`, bytes, 16-byte fingerprints).
  - 64-bit wrap-around, `<<`, `>>` and `|` on `u64`.
  - `IS_ALIGNED`, as `MultipleOf`.
  - The kernel's `strncmp` and `strncpy`. Both stop at the first NUL byte.
- `CryptTable` (`crypt_table.dfy`): `hashCrypt`, `crypt_search` and `crypttable_insert`.
  - The specification functions are pure.
  - Alongside them is a `CryptArray` class over an `array<Slot>`, with the imperative methods `Search`, `Insert`, `Reload` and `Flush`.
  - The file "/citable" is an `IndexFile` object holding a sequence of records.
- `Iv` (`iv.dfy`): `fscrypt_generate_iv` as a pure function. It covers the INO_LBLK_64, INO_LBLK_32 and DIRECT_KEY policy modes and the default mode.
- `CryptBlock` (`crypt_block.dfy`):
  - `fscrypt_crypt_block`, as a specification function and as a method on the table, the file and page arrays;
  - the two in-place wrappers;
  - the block-number computation of the pagecache functions;
  - the two pagecache functions, whose block loops are proved against a fold over the blocks.

The collaborators that `crypto.c` calls but does not define are fields of an `Env` value:

- `hash_page_data`
- `finger_crypt_search(...)->lblk_num`
- the skcipher request
- `f2fs_iget`

The model assumes only that:

- the cipher preserves length, fails with a negative errno and writes nothing when it fails (see "## Left out");
- `f2fs_iget` returns an inode with a usable `fscrypt_info`, for every inode number (see "## Left out");
- for the round-trip lemma alone, decryption inverts encryption.

Points where the code's behaviour is easy to misread, each modelled as the code has it:

- After every successful block encryption the code reloads the table from "/citable", searches for the ciphertext digest, inserts it when it is missing and flushes the whole table back (crypto.c:255-276). This happens whether or not anything was inserted.
- Only `fscrypt_decrypt_pagecache_blocks` reloads the table before decrypting (crypto.c:412-421). `fscrypt_crypt_block` and `fscrypt_decrypt_block_inplace` never consult `cryptArray` when decrypting. They decrypt as the inode they are given, with the block number `finger_crypt_search` recovers.
- A full table is not reported: the return value of `crypttable_insert` is ignored (crypto.c:269-271), and the digest is simply not indexed.
- A `kernel_read` past the end of a short "/citable" leaves the slot as the first reload loop left it: an earlier item, or a fresh `ino = 0` placeholder (`Reloaded`).
- A probe sequence makes up to DEDUP_TABLE_SIZE + 1 probes, so it visits the starting bucket twice (`SearchFrom`, `FreeFrom`).
- `hashCrypt` adds `char` values cast to `size_t`. The model reads `char` as signed, as on x86 with kernels before 6.2 (`SignedChar`; see "## Left out" for other targets). Adding in a wrapping `size_t` and then reducing modulo 2^20 equals reducing the exact signed sum.
- An owner stays indexed only while its item has `ino > 0`. The insert reuses any slot whose item has `ino == 0` (crypto.c:102), so a digest recorded for inode number 0 can be displaced by a later insert (`RegisterKeepsFound`).
- `IS_ALIGNED(len | offs, blocksize)` is modelled as two alignment tests, one on `len` and one on `offs`. For a power-of-two block size the two forms are equivalent (`BlocksAlignedIsBitwise`).

## Model

| member | source | states |
|---|---|---|
| KernelTypes.SignedChar | crypto.c:64 | The value a byte has when read through a signed `char`: it lies in [-128, 128) and is congruent to the byte modulo 256. |
| KernelTypes.StrnCmp | crypto.c:76-77 | The kernel's `strncmp` over two 16-byte strings returns -1, 0 or 1. |
| KernelTypes.StrnCmpZeroIff | crypto.c:76-78 | `strncmp` over 16 bytes reports a match exactly when the two strings agree on every byte up to and including the first NUL of the stored fingerprint. Bytes after that NUL are ignored. |
| KernelTypes.StrnCmpAntisymmetric | crypto.c:76-77 | Swapping the arguments of `strncmp` negates its result. |
| KernelTypes.StrnCmpTransitive | crypto.c:76-77 | Equality under `strncmp` is transitive. |
| KernelTypes.StrnCpy | crypto.c:97 | The kernel's `strncpy` of 16 bytes yields exactly 16 bytes. |
| KernelTypes.StrnCpyMatchesSource | crypto.c:97 | The `strncpy` copy that the insert stores compares equal, under `strncmp`, to the digest it was copied from. |
| KernelTypes.StrnCpyCanonical | crypto.c:97 | Two digests have the same `strncpy` copy exactly when `strncmp` reports them equal. |
| KernelTypes.StrnCmpConflatesDigests | crypto.c:76-77 | Two different 16-byte digests exist that `strncmp` reports as equal: a binary digest with a NUL byte early on matches others. |
| KernelTypes.ShrDivides | crypto.c:316 | `x >> s` is `x / 2^s`. |
| KernelTypes.ShrAddPow2 | crypto.c:330 | Advancing a byte offset by one block of 2^s bytes advances `offs >> s` by one. |
| KernelTypes.MultipleOfMod | crypto.c:323 | A value is a whole number of blocks (`IS_ALIGNED`) exactly when its remainder modulo the block size is 0. |
| KernelTypes.Or64Halves | crypto.c:187 | OR-ing a 32-bit value with a 32-bit value shifted left by 32 is their sum: the bits do not overlap. |
| KernelTypes.BitOrAligned | crypto.c:323 | The bitwise OR of `a` and `b` is a multiple of 2^k exactly when both `a` and `b` are. |
| KernelTypes.Or64Zero | crypto.c:187 | OR with a zero high half leaves the block number as it is. |
| CryptTable.Probe | crypto.c:82-88 | Every probe, with its wraparound, lands on a valid slot index. |
| CryptTable.ProbeCovers | crypto.c:82-88 | From any bucket, every slot of the table is reached by one of the first DEDUP_TABLE_SIZE probes. |
| CryptTable.Bucket | crypto.c:61-67 | The bucket of a digest is a valid slot index. |
| CryptTable.WrapThenBucket | crypto.c:63-65 | Reducing modulo 2^64 (the `size_t` wrap) and then modulo the table size gives the same bucket as reducing the exact sum. |
| CryptTable.HashCrypt | crypto.c:61-67 | The accumulating loop returns an index below DEDUP_TABLE_SIZE. It equals the bucket of the signed byte sum, so it depends only on the sixteen bytes of the fingerprint. |
| CryptTable.SearchFrom | crypto.c:69-91 | A slot that the search from probe `k` returns is a valid index. |
| CryptTable.SearchFromSound | crypto.c:75-89 | A slot the search returns matches the digest under `strncmp`, and every earlier probe passed a non-NULL, non-matching item. |
| CryptTable.SearchFromComplete | crypto.c:75-89 | If every earlier probe passed a non-NULL, non-matching item, the search returns the first matching slot. |
| CryptTable.SearchFromMissed | crypto.c:75-89 | When the search returns NULL and no probe met a NULL slot, no probed slot matches. |
| CryptTable.SearchCorrect | crypto.c:69-91 | Lookup correctness, both directions: `crypt_search` returns slot `i` if and only if `i` is reached from the bucket within DEDUP_TABLE_SIZE + 1 probes, every earlier probe passed a non-NULL, non-matching item, and `i` matches. A NULL slot before any match therefore yields NULL. |
| CryptTable.SearchWithoutNull | crypto.c:75-89 | On a table with no NULL slot (every table after a reload), the NULL terminator never fires. `crypt_search` returns NULL exactly when no slot anywhere matches. |
| CryptTable.FreeFrom | crypto.c:102-111 | A slot that the insert probe from step `k` picks is a valid index. |
| CryptTable.FreeFromSound | crypto.c:102-111 | The slot the insert picks is NULL or has `ino == 0`, and every earlier probe met a live item. |
| CryptTable.FreeFromComplete | crypto.c:102-111 | If every earlier probe met a live item, the insert picks the first writable slot. |
| CryptTable.FreeFromMissed | crypto.c:102-111 | When the insert finds no slot, every probed slot holds a live item. |
| CryptTable.InsertPlacement | crypto.c:100-113 | Insert placement, both directions: the slot written is the first slot at or after the bucket, with wraparound, that is NULL or has `ino == 0`. |
| CryptTable.InsertFull | crypto.c:102-111 | Full table, both directions: the insert gives up (returns 1) exactly when every slot holds a live item with `ino > 0`. |
| CryptTable.SearchAfterInsert | crypto.c:93-115 | After inserting a digest that the search missed, the next search finds it in exactly the slot the insert wrote. |
| CryptTable.Register | crypto.c:269-271 | Search-then-insert keeps the table size and never brings back a NULL slot. |
| CryptTable.RegisterNoOverwrite | crypto.c:269-271 | No overwrite: an already indexed digest changes nothing. Otherwise at most one slot changes: one that was NULL or had `ino == 0` gets the new item. Every live item survives. |
| CryptTable.RegisterThenSearch | crypto.c:269-271 | After registration the digest is found unless the table was full. A new digest is found in the slot just written, with the registering owner. |
| CryptTable.RegisterIdempotent | crypto.c:269-271 | Registering the same digest again, for any owner, leaves the table unchanged: the first writer stays. |
| CryptTable.RegisterKeepsFound | crypto.c:93-115 | Registration never hides an indexed digest: when the search finds a live item (`ino > 0`) on a table with no NULL slot, it finds the same slot after any digest is registered for any owner. |
| CryptTable.Placeholders | crypto.c:259-264 | The first reload loop leaves the table the same size with no NULL slot. |
| CryptTable.Reloaded | crypto.c:259-267 | A reloaded table has DEDUP_TABLE_SIZE slots and no NULL slot. |
| CryptTable.ReloadAfterFlush | crypto.c:265-274 | Persistence round trip: reloading from the file that a flush wrote restores exactly the flushed table, whatever the memory held before and whatever the placeholders contained. |
| CryptTable.ReloadFromFullFile | crypto.c:259-267 | A reload from a file with a record for every slot depends only on the file. The table's records are then the file's first DEDUP_TABLE_SIZE records. |
| CryptTable.FlushedLength | crypto.c:272-274 | A flush never shortens the file, and the file's first DEDUP_TABLE_SIZE records are the table's records in slot order. |
| CryptTable.CryptArray.constructor | crypto.c:59 | At module load every slot of `cryptArray` is NULL. |
| CryptTable.CryptArray.Search | crypto.c:69-91 | The probing loop returns the answer of the search specification on the current table and does not modify the table. |
| CryptTable.CryptArray.Insert | crypto.c:93-115 | The probing loop returns 0 or 1, with 1 exactly when no slot is writable. It stores the `strncpy`'d item in the slot the insert specification picks, and changes nothing on failure. |
| CryptTable.CryptArray.Reload | crypto.c:259-267 | The two reload loops fill each NULL slot with an `ino = 0` placeholder, then read the file's records into the slots in order. |
| CryptTable.CryptArray.Flush | crypto.c:272-274 | The flush loop writes every slot's record in order from offset 0. The file becomes the table's records followed by any older records beyond them. |
| Iv.LeBytes | crypto.c:194 | The little-endian encoding has exactly the requested number of bytes. |
| Iv.Le64 | crypto.c:194 | `cpu_to_le64` yields exactly the eight bytes of the IV's block field. |
| Iv.LeRoundTrip | crypto.c:194 | `cpu_to_le64` loses nothing: decoding the eight bytes gives back the 64-bit block field. |
| Iv.InoHighIsShift | crypto.c:187 | `(u64)ino << 32` is the general 64-bit left shift by 32. |
| Iv.GenerateIv | crypto.c:177-195 | The IV the cipher reads is exactly `ivsize` bytes long. |
| Iv.IvLayout | crypto.c:182-194 | IV layout: the first eight bytes are the block field in little-endian order. In DIRECT_KEY mode the bytes after the block field are the nonce, as far as `ivsize` reaches, and any bytes past the nonce are zero, as the `memset` leaves them. In every other mode every byte after the block field is zero. |
| Iv.InoLblk64Field | crypto.c:184-187 | INO_LBLK_64 within the WARN_ON_ONCE bounds: the block number fills the low 32 bits of the field and the inode number the high 32 bits. |
| Iv.InoLblk32Field | crypto.c:188-190 | INO_LBLK_32: the field is a 32-bit value congruent to `hashed_ino + lblk_num` modulo 2^32. |
| Iv.InoLblk64Unique | crypto.c:184-187 | Within the WARN_ON_ONCE bounds, two (inode, block) pairs get the same INO_LBLK_64 IV exactly when the pairs are equal. |
| Iv.InoLblk64Overlap | crypto.c:185-187 | Beyond the WARN_ON_ONCE bound the OR overlaps. Block `lblk + 2^32` of inode 0 gets the same IV as block `lblk` of inode 1. |
| Iv.SameFieldSameIv | crypto.c:182-194 | The IV depends on the block and the inode only through the block field (and the policy). |
| Iv.FieldDistinguishesBlocks | crypto.c:184-194 | For one file, equal block fields mean equal block numbers, in every mode. In the INO_LBLK modes this holds for block numbers within 32 bits. |
| Iv.IvDistinguishesBlocks | crypto.c:177-195 | For one file, two block numbers get the same IV exactly when they are equal: in every mode, within 32 bits for the INO_LBLK modes. |
| CryptBlock.BlockData | crypto.c:224-247 | The cipher step returns a whole page or a negative errno. |
| CryptBlock.Record | crypto.c:255-276 | The table step after an encryption (reload, search, insert if missing, flush) leaves a full table without NULL slots whose records are exactly the first DEDUP_TABLE_SIZE records of "/citable". |
| CryptBlock.CryptBlockSpec | crypto.c:198-278 | `fscrypt_crypt_block` as a function: it always returns a whole destination page and a full-size table. |
| CryptBlock.BlockRejectsBadLength | crypto.c:224-227 | A zero length, or one that is not a multiple of FSCRYPT_CONTENTS_ALIGNMENT (16), gives -EINVAL and changes neither the page nor the table. Success implies a valid length. |
| CryptBlock.BlockDataWritesItsRange | crypto.c:239-247 | The cipher step changes only bytes `offs .. offs + len` of the destination. Those bytes are the cipher's output for the same source bytes, under the IV of the effective block number. |
| CryptBlock.BlockWritesOnlyItsRange | crypto.c:198-278 | No overwrite for one block: the result is 0 or a negative errno, and only the block's own bytes change. A failure changes neither page nor table, and a decryption never changes the table or the file. |
| CryptBlock.DecryptUsesRecoveredLblk | crypto.c:215-222 | On decryption, when the fingerprint table recovers a block number for the source page's digest, that number replaces the caller's. The result does not depend on the number passed in. |
| CryptBlock.EncryptThenDecrypt | crypto.c:198-278 | Round trip: when the cipher inverts, decrypting in place what an encryption wrote, with the same inode and block number, restores the plaintext block, leaves the rest of the page alone and does not touch the table. This needs the fingerprint table to recover that block number, or none, for the ciphertext page. |
| CryptBlock.EncryptRecordsOwner | crypto.c:255-276 | Deduplication by owner: after an encryption, any later reload of "/citable" restores the flushed table. In that table the ciphertext digest is found unless the table was full, and a new digest resolves through `f2fs_iget` to the encrypting inode. |
| CryptBlock.CryptBlock | crypto.c:198-278 | The method on the table, "/citable" and the page arrays returns, and leaves in the table, file and destination page, exactly what `CryptBlockSpec` describes. |
| CryptBlock.RecordCiphertext | crypto.c:255-276 | The reload, search, conditional insert and flush leave the table and the file as `Record` describes. |
| CryptBlock.EncryptBlockInplace | crypto.c:362-368 | `fscrypt_encrypt_block_inplace` is `fscrypt_crypt_block` with the same page as source and destination. |
| CryptBlock.DecryptBlockInplace | crypto.c:456-462 | `fscrypt_decrypt_block_inplace` decrypts the page in place and leaves the table and the file as they were. |
| CryptBlock.LblkAdvance | crypto.c:330 | The block number that the formula gives for the next block of the page is the previous one plus one, in wrapping `u64` (`lblk_num++`). |
| CryptBlock.LblkNumbering | crypto.c:315-316 | Without overflow, `(index << (PAGE_SHIFT - blkbits)) + (offs >> blkbits)` is the index, within the file, of the block holding byte `offs` of page `index`. |
| CryptBlock.PageShr | crypto.c:315-316 | Shifting the byte position right by `blkbits` gives the blocks before the page plus the blocks before `offs`. |
| CryptBlock.PageIndexShift | crypto.c:315 | Without overflow, shifting the page index left by `PAGE_SHIFT - blkbits` counts the blocks before the page. |
| CryptBlock.PageFactors | crypto.c:313-315 | A page holds 2^(PAGE_SHIFT - blkbits) blocks of 2^blkbits bytes. |
| CryptBlock.CryptBlocks | crypto.c:330-338 | The block loop as a fold always yields a whole page. |
| CryptBlock.BlocksWriteOnlyTheirRange | crypto.c:330-338 | No overwrite across the loop: the result is 0 or a negative errno, and only bytes `offs .. offs + len` change. A completed loop hands one ciphertext page per block to the table, and a failed loop hands fewer. |
| CryptBlock.FirstBlockKept | crypto.c:330-338 | The ciphertext of a successful first block survives the rest of the loop unchanged. |
| CryptBlock.WholePageBlock | crypto.c:330-338 | A loop over a single page-sized block is one cipher call on the whole page: an error leaves the page as it was and hands no page to the table, and success gives the cipher's output as both the page and the one recorded page. |
| CryptBlock.BlocksNumbered | crypto.c:330-338 | Block numbering: when every block succeeds, block `k` of the range is ciphered with the IV of block number `lblk + k` (wrapping). |
| CryptBlock.RecordAll | crypto.c:330-338 | The table side of the encryption loop: one reload-register-flush per ciphertext page, in order. The table keeps its size, and after at least one page the table and "/citable" mirror each other. |
| CryptBlock.ReloadMirrored | crypto.c:259-267 | Reloading a table that mirrors "/citable" gives back the same table, whatever the placeholders hold. |
| CryptBlock.RecordKeepsFound | crypto.c:256-276 | One encryption's reload-register-flush keeps an earlier owner: a digest that the reload finds in a live slot is found in the same slot, holding the same record, in the table that is flushed. |
| CryptBlock.RecordAllKeepsFound | crypto.c:330-338 | Across the encryption loop, an owner recorded before it keeps its digest: after every ciphertext page is registered, the lookup returns the same slot with the same record. |
| CryptBlock.RecordAllSnoc | crypto.c:330-333 | Recording one more ciphertext page applies the table step on top of the tables the earlier pages left. |
| CryptBlock.BlocksAlignedIsBitwise | crypto.c:323 | The two alignment tests hold exactly when `len > 0` and the bitwise OR of `len` and `offs`, taken on 32-bit `unsigned int`, is a multiple of the block size. |
| CryptBlock.DedupRoundTrip | crypto.c:255-276 | Deduplicated read-back across inodes. Inode `a` encrypts a one-block page and records its new ciphertext digest, and the fingerprint table recovers the block number used for that digest. Then a later in-place decryption of the ciphertext, after any reload of "/citable", for any host inode and any requested block number, resolves the owner to `a` through `f2fs_iget`, uses the recovered block number and returns the plaintext. |
| CryptBlock.EncryptBlocks | crypto.c:330-338 | The encryption loop returns the fold's result and leaves the fold's page in the bounce page. The table and file equal the table step applied once per completed block, in order. |
| CryptBlock.DecryptBlocks | crypto.c:430-435 | The in-place decryption loop returns the fold's result, leaves the fold's page, and does not change the table or the file. |
| CryptBlock.EncryptPagecacheBlocks | crypto.c:305-342 | An unlocked page, or a zero or misaligned `len`/`offs`, gives -EINVAL; a failed bounce-page allocation gives -ENOMEM; none of these changes the table, the file or the bounce page. Otherwise the blocks are encrypted into the bounce page, numbered from `(index << (PAGE_SHIFT - blkbits)) + (offs >> blkbits)`, and the bounce page or the first error is returned. |
| CryptBlock.ResolveOwner | crypto.c:412-428 | The owner lookup reloads the table from "/citable" and returns `f2fs_iget` of the inode recorded for the page's digest, or the page's own inode when none is recorded. |
| CryptBlock.DecryptPagecacheBlocks | crypto.c:388-437 | An unlocked page, or a zero or misaligned range, gives -EINVAL and changes nothing. Otherwise the table is reloaded and the blocks are decrypted in place as the resolved owner, with block numbers and block size taken from the page's own inode. The first error is returned; the file is never changed. |

Several definitions carry no contract of their own. Their properties are stated through the members named with each:

- `Iv.HasFlag` and `Iv.Mode` (crypto.c:184-191), the flag tests in source order: `IvLayout`, `FieldDistinguishesBlocks` and `IvDistinguishesBlocks`.
- `Iv.LblkField` (crypto.c:184-190): `InoLblk64Field`, `InoLblk32Field` and `IvLayout`.
- `CryptTable.SearchSpec` (crypto.c:69-91): `SearchCorrect`, `SearchWithoutNull` and `CryptArray.Search`.
- `CryptTable.FreeSlot` (crypto.c:100-111): `InsertPlacement`, `InsertFull` and `CryptArray.Insert`.
- `CryptTable.NewItem` (crypto.c:95-98), the `kmalloc`'d item with its `strncpy`'d fingerprint and owner: `StrnCpyMatchesSource`, `SearchAfterInsert` and `RegisterThenSearch`.
- `CryptTable.Inserted` (crypto.c:93-115): `SearchAfterInsert`, `RegisterNoOverwrite` and `CryptArray.Insert`.
- `CryptTable.Overwrite` and `CryptTable.Flushed` (crypto.c:272-274): `FlushedLength`, `ReloadAfterFlush` and `CryptArray.Flush`.
- `CryptBlock.EffectiveLblk` (crypto.c:215-222) and `CryptBlock.Owner` (crypto.c:423-427): `DecryptUsesRecoveredLblk` and `DedupRoundTrip`.
- `CryptBlock.FirstLblk` (crypto.c:315-316): `EncryptPagecacheBlocks`, `LblkNumbering` and `BlocksNumbered`.

## Left out

- Kernel file I/O (`filp_open` with `O_CREAT`, `kernel_read`, `kernel_write`, `filp_close`) is not modelled. "/citable" is a sequence of whole records, a read past the end leaves the slot alone, and I/O errors and partial records are not modelled.
- The on-disk record layout (16 digest bytes, then `unsigned long ino`) is not modelled. Records are `Cryptitem` values.
- The skcipher request, its allocation failure (-ENOMEM) and its asynchronous wait are one uninterpreted function `Env.cipher`. It may fail with any negative errno, so the allocation failure is one of its failures.
- `hash_page_data`, `finger_crypt_search` (with `read_finger_blk_table_from_file`) and `f2fs_iget` are uninterpreted functions of `Env`.
- `fscrypt_require_key` is not modelled. Its return value is stored in a shadowing local and ignored (crypto.c:425-427), but it is also the call that sets up `i_crypt_info` for an inode fresh from `f2fs_iget`. The model takes the key as already set up (see the next line).
- `kmalloc` and `kfree` are not modelled. Allocations never fail, and the fingerprint of a freshly allocated placeholder is an arbitrary value given by the `junk` parameter.
- The bounce-page mempool is not modelled. The caller passes the bounce page, or `null` for a failed allocation. Freeing it on error and `SetPagePrivate`/`set_page_private` are not modelled.
- `PageLocked` is a boolean field of `Page`.
- The `WARN_ON_ONCE` warnings and `fscrypt_err` logging are not modelled. Only their effect on control flow is kept.
- `fscrypt_initialize`, `fscrypt_init`, the workqueue, `fscrypt_msg` and `fscrypt_free_bounce_page` are outside the modelled core.
- Concurrency on the global table is not modelled; the model is single-threaded.
- PAGE_SHIFT is fixed at 12 (4096-byte pages).
- Page and inode validity are preconditions: `i_blkbits <= PAGE_SHIFT`, and the page range `offs + len` lies within the page. The source relies on its callers for both.
- The IV is modelled as the `ivsize` bytes the cipher reads. The bytes of `union fscrypt_iv` beyond `ivsize` are not modelled.
- The block loops are factored into the methods `EncryptBlocks` and `DecryptBlocks`, which the pagecache methods call with the range and block size they compute.
- CryptBlock.BlocksNumbered: proved for the out-of-place (encryption) loop only. In the in-place decryption loop, the recovered block number depends on the digest of the page as the earlier blocks left it. That loop's numbering is stated through `CryptBlocks` with `inPlace` and not as a separate lemma.
- CryptBlock.ResolveOwner, CryptBlock.DecryptPagecacheBlocks: assume that `f2fs_iget` returns a usable inode with its key set up for every inode number. That includes a failed lookup (an `ERR_PTR`), an inode whose key `fscrypt_require_key` failed to set up, and inode number 0 (a digest that matches an `ino = 0` placeholder). In these cases the source goes on to dereference `inode->i_crypt_info` (crypto.c:207-208) without a check, so it dereferences NULL or an `ERR_PTR`. The model does not capture that crash.
- CryptBlock.BlockWritesOnlyItsRange, CryptBlock.BlockLoopStop, CryptBlock.BlocksWriteOnlyTheirRange, CryptBlock.DecryptBlocks, CryptBlock.DecryptPagecacheBlocks: a failed cipher call is modelled as writing nothing, so their failure cases state that the page is unchanged. The skcipher request writes through the `dst` scatterlist (crypto.c:239-247). A request that fails after writing part of the block leaves the destination bytes of that block unspecified, and the model does not capture it.
- KernelTypes.SignedChar, CryptTable.Bucket: `char` is read as signed, which holds on x86 for kernels before 6.2. From 6.2 the kernel builds with `-funsigned-char`, and on ARM64 `char` is unsigned, so there the bucket of a digest with bytes of 128 or more differs. Only the range of `Bucket` and the equality in `HashCrypt` depend on this choice. The lookup, insert and registration lemmas hold for any bucket function.
