/**
 * `fscrypt_crypt_block` and the two pagecache loops built on it. On
 * encryption every block also registers the fingerprint of its ciphertext
 * page in the deduplication table and persists the table to "/citable"; on
 * decryption the block number and the owning inode are recovered from the
 * deduplication tables before the cipher runs.
 */
module CryptBlock {
  import opened Wrappers
  import opened KernelTypes
  import opened CryptTable
  import opened Iv

  const EINVAL: int := 22
  const ENOMEM: int := 12

  const FSCRYPT_CONTENTS_ALIGNMENT: nat := 16
  const PAGE_SHIFT: nat := 12
  const PAGE_SIZE: nat := 4096

  datatype Direction = Decrypt | Encrypt

  /** The parts of `struct inode` used here: its number, `i_blkbits` and its `fscrypt_info`. */
  datatype Inode = Inode(ino: u64, blkbits: nat, ci: CryptInfo)

  /** A filesystem's inode: blocks no larger than a page, and a usable `fscrypt_info`. */
  ghost predicate ValidInode(inode: Inode)
  {
    inode.blkbits <= PAGE_SHIFT && ValidInfo(inode.ci)
  }

  /**
   * The collaborators this file calls but does not define:
   *  - `hashPage`: `hash_page_data`, the 16-byte digest of a page's contents;
   *  - `fingerLblk`: `finger_crypt_search(digest)->lblk_num`, the block number
   *    the fingerprint table records for a digest, if any;
   *  - `cipher`: the skcipher request (allocation, encrypt or decrypt, wait),
   *    applied to `len` bytes under a key and an IV; an error is a negative errno;
   *  - `iget`: `f2fs_iget`, the inode with a given number.
   */
  datatype Env = Env(
    hashPage: seq<Byte> -> Fingerprint,
    fingerLblk: Fingerprint -> Option<u64>,
    cipher: (Direction, CryptInfo, seq<Byte>, seq<Byte>) -> Result<seq<Byte>>,
    iget: u64 -> Inode)

  ghost predicate ValidEnv(env: Env)
  {
    && (forall rw, ci, iv, x :: env.cipher(rw, ci, iv, x).Ok? ==> |env.cipher(rw, ci, iv, x).value| == |x|)
    && (forall rw, ci, iv, x :: env.cipher(rw, ci, iv, x).Err? ==> env.cipher(rw, ci, iv, x).code < 0)
    && (forall ino :: ValidInfo(env.iget(ino).ci))
  }

  /** Decryption with the key and IV an encryption used gives the plaintext back. */
  ghost predicate CipherInverts(env: Env)
  {
    forall ci, iv, x :: env.cipher(Encrypt, ci, iv, x).Ok? ==>
      env.cipher(Decrypt, ci, iv, env.cipher(Encrypt, ci, iv, x).value) == Ok(x)
  }

  /** The in-memory deduplication table and the contents of "/citable". */
  datatype World = World(slots: seq<Slot>, file: seq<Cryptitem>)

  /** What one call leaves behind: its return value, the table and file, and the destination page. */
  datatype Outcome = Outcome(res: int, world: World, dest: seq<Byte>)

  /** The block number the IV is built from: on decryption, the one the fingerprint table recovers, if any. */
  function EffectiveLblk(env: Env, rw: Direction, lblk: u64, src: seq<Byte>): u64
  {
    if rw == Decrypt then
      match env.fingerLblk(env.hashPage(src))
      case Some(recovered) => recovered
      case None => lblk
    else lblk
  }

  /**
   * The cipher half of `fscrypt_crypt_block` on page contents: refuse a zero
   * or misaligned length with -EINVAL, otherwise run the cipher on bytes
   * `offs .. offs + len` of the source under the IV of the effective block
   * number and give the destination page with those bytes replaced.
   */
  function BlockData(env: Env, inode: Inode, rw: Direction, lblk: u64,
                     src: seq<Byte>, dest: seq<Byte>, len: nat, offs: nat): (r: Result<seq<Byte>>)
    requires ValidEnv(env) && ValidInfo(inode.ci)
    requires |src| == PAGE_SIZE && |dest| == PAGE_SIZE && offs + len <= PAGE_SIZE
    ensures r.Ok? ==> |r.value| == PAGE_SIZE
    ensures r.Err? ==> r.code < 0
  {
    var num := EffectiveLblk(env, rw, lblk, src);
    if len == 0 || len % FSCRYPT_CONTENTS_ALIGNMENT != 0 then Err(-EINVAL)
    else match env.cipher(rw, inode.ci, GenerateIv(num, inode.ci, inode.ino), src[offs..offs + len])
      case Err(code) => Err(code)
      case Ok(out) => Ok(dest[..offs] + out + dest[offs + len..])
  }

  /**
   * The table half after an encryption (crypto.c:256-276): reload the table
   * from "/citable", register the digest of the ciphertext page for `ino`
   * and flush the table back to the file.
   */
  function Record(env: Env, w: World, page: seq<Byte>, ino: u64, junk: nat -> Fingerprint): (r: World)
    requires |w.slots| == DEDUP_TABLE_SIZE
    ensures Mirrored(r)
  {
    var slots := Register(Reloaded(w.slots, w.file, junk), env.hashPage(page), ino);
    FlushedLength(slots, w.file);
    World(slots, Flushed(slots, w.file))
  }

  /** A full table without NULL slots whose records are the first records of "/citable". */
  predicate Mirrored(w: World)
  {
    && |w.slots| == DEDUP_TABLE_SIZE && NoNull(w.slots)
    && |w.file| >= DEDUP_TABLE_SIZE && w.file[..DEDUP_TABLE_SIZE] == Items(w.slots)
  }

  /** `fscrypt_crypt_block`: the cipher half, then on a successful encryption the table half. */
  function CryptBlockSpec(env: Env, w: World, inode: Inode, rw: Direction, lblk: u64,
                          src: seq<Byte>, dest: seq<Byte>, len: nat, offs: nat,
                          junk: nat -> Fingerprint): (o: Outcome)
    requires ValidEnv(env) && ValidInfo(inode.ci) && |w.slots| == DEDUP_TABLE_SIZE
    requires |src| == PAGE_SIZE && |dest| == PAGE_SIZE && offs + len <= PAGE_SIZE
    ensures |o.dest| == PAGE_SIZE && |o.world.slots| == DEDUP_TABLE_SIZE
  {
    match BlockData(env, inode, rw, lblk, src, dest, len, offs)
    case Err(code) => Outcome(code, w, dest)
    case Ok(written) => Outcome(0, if rw == Encrypt then Record(env, w, written, inode.ino, junk) else w, written)
  }

  /** A length of zero or one that is not a multiple of 16 is refused with -EINVAL and changes nothing. */
  lemma BlockRejectsBadLength(env: Env, w: World, inode: Inode, rw: Direction, lblk: u64,
                              src: seq<Byte>, dest: seq<Byte>, len: nat, offs: nat, junk: nat -> Fingerprint)
    requires ValidEnv(env) && ValidInfo(inode.ci) && |w.slots| == DEDUP_TABLE_SIZE
    requires |src| == PAGE_SIZE && |dest| == PAGE_SIZE && offs + len <= PAGE_SIZE
    ensures var o := CryptBlockSpec(env, w, inode, rw, lblk, src, dest, len, offs, junk);
      o.res == 0 ==> len > 0 && len % FSCRYPT_CONTENTS_ALIGNMENT == 0
    ensures var o := CryptBlockSpec(env, w, inode, rw, lblk, src, dest, len, offs, junk);
      len == 0 || len % FSCRYPT_CONTENTS_ALIGNMENT != 0 ==> o == Outcome(-EINVAL, w, dest)
  {
  }

  /**
   * The cipher half writes exactly its range: bytes `offs .. offs + len` of
   * the page it gives are the cipher's output for the same source bytes
   * under the IV of the effective block number, all others are the
   * destination's.
   */
  lemma BlockDataWritesItsRange(env: Env, inode: Inode, rw: Direction, lblk: u64,
                                src: seq<Byte>, dest: seq<Byte>, len: nat, offs: nat)
    requires ValidEnv(env) && ValidInfo(inode.ci)
    requires |src| == PAGE_SIZE && |dest| == PAGE_SIZE && offs + len <= PAGE_SIZE
    ensures var r := BlockData(env, inode, rw, lblk, src, dest, len, offs);
      r.Ok? ==>
        && (forall j :: 0 <= j < PAGE_SIZE && !(offs <= j < offs + len) ==> r.value[j] == dest[j])
        && BlockDone(env, inode, rw, lblk, src, r.value, offs, len)
  {
    var r := BlockData(env, inode, rw, lblk, src, dest, len, offs);
    if r.Ok? {
      var c := env.cipher(rw, inode.ci, GenerateIv(EffectiveLblk(env, rw, lblk, src), inode.ci, inode.ino), src[offs..offs + len]);
      assert r.value[offs..offs + len] == c.value;
    }
  }

  /**
   * No overwrite: a call returns 0 or a negative errno; only bytes
   * `offs .. offs + len` of the destination change, and they receive the
   * cipher's output under the IV of the effective block number; a failing
   * call changes neither the destination nor the table; a decryption never
   * changes the table or the file.
   */
  lemma BlockWritesOnlyItsRange(env: Env, w: World, inode: Inode, rw: Direction, lblk: u64,
                                src: seq<Byte>, dest: seq<Byte>, len: nat, offs: nat, junk: nat -> Fingerprint)
    requires ValidEnv(env) && ValidInfo(inode.ci) && |w.slots| == DEDUP_TABLE_SIZE
    requires |src| == PAGE_SIZE && |dest| == PAGE_SIZE && offs + len <= PAGE_SIZE
    ensures var o := CryptBlockSpec(env, w, inode, rw, lblk, src, dest, len, offs, junk);
      && o.res <= 0
      && (forall j :: 0 <= j < PAGE_SIZE && !(offs <= j < offs + len) ==> o.dest[j] == dest[j])
      && (o.res != 0 ==> o.dest == dest && o.world == w)
      && (o.res == 0 ==> BlockDone(env, inode, rw, lblk, src, o.dest, offs, len))
      && (rw == Decrypt ==> o.world == w)
  {
    BlockDataWritesItsRange(env, inode, rw, lblk, src, dest, len, offs);
  }

  /** The block at `at` of `d` holds `src`'s block at `at` run through the cipher with the IV of block number `n`. */
  predicate BlockDone(env: Env, inode: Inode, rw: Direction, n: u64, src: seq<Byte>, d: seq<Byte>, at: nat, bs: nat)
    requires ValidInfo(inode.ci) && |src| == PAGE_SIZE && |d| == PAGE_SIZE && at + bs <= PAGE_SIZE
  {
    Ok(d[at..at + bs]) == env.cipher(rw, inode.ci, GenerateIv(EffectiveLblk(env, rw, n, src), inode.ci, inode.ino), src[at..at + bs])
  }

  /**
   * On decryption a block number the fingerprint table recovers replaces
   * the caller's: whatever block number is passed, the outcome is the same.
   */
  lemma DecryptUsesRecoveredLblk(env: Env, w: World, inode: Inode, l1: u64, l2: u64, recovered: u64,
                                 src: seq<Byte>, dest: seq<Byte>, len: nat, offs: nat, junk: nat -> Fingerprint)
    requires ValidEnv(env) && ValidInfo(inode.ci) && |w.slots| == DEDUP_TABLE_SIZE
    requires |src| == PAGE_SIZE && |dest| == PAGE_SIZE && offs + len <= PAGE_SIZE
    requires env.fingerLblk(env.hashPage(src)) == Some(recovered)
    ensures CryptBlockSpec(env, w, inode, Decrypt, l1, src, dest, len, offs, junk)
         == CryptBlockSpec(env, w, inode, Decrypt, l2, src, dest, len, offs, junk)
         == CryptBlockSpec(env, w, inode, Decrypt, recovered, src, dest, len, offs, junk)
  {
  }

  /**
   * Round trip: decrypting in place what an encryption wrote, with the same
   * inode and block number (the fingerprint table recovers that number or
   * nothing), gives back the plaintext and leaves the rest of the page alone.
   */
  lemma EncryptThenDecrypt(env: Env, w: World, w2: World, inode: Inode, lblk: u64,
                           src: seq<Byte>, dest: seq<Byte>, len: nat, offs: nat,
                           junk: nat -> Fingerprint, junk2: nat -> Fingerprint)
    requires ValidEnv(env) && CipherInverts(env) && ValidInfo(inode.ci)
    requires |w.slots| == DEDUP_TABLE_SIZE && |w2.slots| == DEDUP_TABLE_SIZE
    requires |src| == PAGE_SIZE && |dest| == PAGE_SIZE && offs + len <= PAGE_SIZE
    requires CryptBlockSpec(env, w, inode, Encrypt, lblk, src, dest, len, offs, junk).res == 0
    requires var c := CryptBlockSpec(env, w, inode, Encrypt, lblk, src, dest, len, offs, junk).dest;
      EffectiveLblk(env, Decrypt, lblk, c) == lblk
    ensures var c := CryptBlockSpec(env, w, inode, Encrypt, lblk, src, dest, len, offs, junk).dest;
      var p := CryptBlockSpec(env, w2, inode, Decrypt, lblk, c, c, len, offs, junk2);
      p.res == 0 && p.world == w2 && p.dest == c[..offs] + src[offs..offs + len] + c[offs + len..]
  {
    var iv := GenerateIv(lblk, inode.ci, inode.ino);
    var x := src[offs..offs + len];
    var c := CryptBlockSpec(env, w, inode, Encrypt, lblk, src, dest, len, offs, junk).dest;
    assert c[offs..offs + len] == env.cipher(Encrypt, inode.ci, iv, x).value;
  }

  /** `f2fs_iget` of the owner the table records for a digest, or the page's own inode when there is none. */
  function Owner(env: Env, slots: seq<Slot>, host: Inode, digest: Fingerprint): Inode
    requires |slots| == DEDUP_TABLE_SIZE && NoNull(slots)
  {
    match SearchSpec(slots, digest)
    case Some(i) => env.iget(slots[i].item.ino)
    case None => host
  }

  /**
   * Deduplication by owner: after an encryption, a later reload of
   * "/citable" (whatever the table held meanwhile) restores the flushed
   * table, in which the ciphertext page's digest is found unless the table
   * was full; when the digest was new, it resolves to the encrypting inode.
   */
  lemma EncryptRecordsOwner(env: Env, w: World, inode: Inode, lblk: u64, src: seq<Byte>, dest: seq<Byte>,
                            len: nat, offs: nat, junk: nat -> Fingerprint,
                            later: seq<Slot>, junk2: nat -> Fingerprint, host: Inode)
    requires ValidEnv(env) && ValidInfo(inode.ci) && |w.slots| == DEDUP_TABLE_SIZE && |later| == DEDUP_TABLE_SIZE
    requires |src| == PAGE_SIZE && |dest| == PAGE_SIZE && offs + len <= PAGE_SIZE
    requires CryptBlockSpec(env, w, inode, Encrypt, lblk, src, dest, len, offs, junk).res == 0
    ensures var o := CryptBlockSpec(env, w, inode, Encrypt, lblk, src, dest, len, offs, junk);
      var d := env.hashPage(o.dest);
      var s0 := Reloaded(w.slots, w.file, junk);
      var r := Reloaded(later, o.world.file, junk2);
      && r == o.world.slots
      && (SearchSpec(r, d).None? <==> SearchSpec(s0, d).None? && FreeSlot(s0, d).None?)
      && (SearchSpec(s0, d).None? && FreeSlot(s0, d).Some? ==> Owner(env, r, host, d) == env.iget(inode.ino))
  {
    var o := CryptBlockSpec(env, w, inode, Encrypt, lblk, src, dest, len, offs, junk);
    var d := env.hashPage(o.dest);
    var s0 := Reloaded(w.slots, w.file, junk);
    assert o.world.slots == Register(s0, d, inode.ino);
    ReloadAfterFlush(o.world.slots, w.file, later, junk2);
    RegisterThenSearch(s0, d, inode.ino);
  }

  /**
   * `fscrypt_crypt_block` on the table object, "/citable" and page arrays
   * (`src` and `dest` are the same array for the in-place variants).
   */
  method CryptBlock(env: Env, table: CryptArray, citable: IndexFile, inode: Inode, rw: Direction, lblk: u64,
                    src: array<Byte>, dest: array<Byte>, len: nat, offs: nat, junk: nat -> Fingerprint)
    returns (res: int)
    requires ValidEnv(env) && ValidInfo(inode.ci) && table.Valid()
    requires src.Length == PAGE_SIZE && dest.Length == PAGE_SIZE && offs + len <= PAGE_SIZE
    modifies table.slots, citable, dest
    ensures var o := CryptBlockSpec(env, World(old(table.slots[..]), old(citable.records)), inode, rw, lblk,
                                    old(src[..]), old(dest[..]), len, offs, junk);
      res == o.res && table.slots[..] == o.world.slots && citable.records == o.world.file && dest[..] == o.dest
  {
    ghost var w := World(table.slots[..], citable.records);
    ghost var src0 := src[..];
    ghost var dest0 := dest[..];
    var lblkNum: u64 := lblk;
    if rw == Decrypt {
      var digest := env.hashPage(src[..]);
      var item := env.fingerLblk(digest);
      if item.Some? {
        lblkNum := item.value;
      }
    }
    if len == 0 {
      assert CryptBlockSpec(env, w, inode, rw, lblk, src0, dest0, len, offs, junk) == Outcome(-EINVAL, w, dest0);
      return -EINVAL;
    }
    if len % FSCRYPT_CONTENTS_ALIGNMENT != 0 {
      assert CryptBlockSpec(env, w, inode, rw, lblk, src0, dest0, len, offs, junk) == Outcome(-EINVAL, w, dest0);
      return -EINVAL;
    }
    assert lblkNum == EffectiveLblk(env, rw, lblk, src0);
    var iv := GenerateIv(lblkNum, inode.ci, inode.ino);
    var out := env.cipher(rw, inode.ci, iv, src[offs..offs + len]);
    if out.Err? {
      assert CryptBlockSpec(env, w, inode, rw, lblk, src0, dest0, len, offs, junk) == Outcome(out.code, w, dest0);
      return out.code;
    }
    ghost var written := dest0[..offs] + out.value + dest0[offs + len..];
    forall j | offs <= j < offs + len {
      dest[j] := out.value[j - offs];
    }
    assert forall j :: 0 <= j < PAGE_SIZE ==> dest[j] == written[j];
    assert dest[..] == written;
    assert table.slots[..] == w.slots;
    ghost var o := CryptBlockSpec(env, w, inode, rw, lblk, src0, dest0, len, offs, junk);
    assert o.dest == written;
    if rw == Encrypt {
      assert o.world == Record(env, w, written, inode.ino, junk);
      RecordCiphertext(env, table, citable, dest, inode.ino, junk);
    }
    return 0;
  }

  /**
   * The tail of an encryption (crypto.c:256-276): reload the table from
   * "/citable", register the digest of the ciphertext page for `ino` when
   * `crypt_search` misses it, and flush the table back to the file.
   */
  method RecordCiphertext(env: Env, table: CryptArray, citable: IndexFile, page: array<Byte>, ino: u64,
                          junk: nat -> Fingerprint)
    requires table.Valid()
    modifies table.slots, citable
    ensures World(table.slots[..], citable.records) == Record(env, World(old(table.slots[..]), old(citable.records)), page[..], ino, junk)
  {
    table.Reload(citable, junk);
    var digest := env.hashPage(page[..]);
    var item := table.Search(digest);
    if item.None? {
      var _ := table.Insert(digest, ino);
    }
    table.Flush(citable);
  }

  /** `fscrypt_encrypt_block_inplace`: encrypt one block of a page in place. */
  method EncryptBlockInplace(env: Env, table: CryptArray, citable: IndexFile, inode: Inode, page: array<Byte>,
                             len: nat, offs: nat, lblk: u64, junk: nat -> Fingerprint)
    returns (res: int)
    requires ValidEnv(env) && ValidInfo(inode.ci) && table.Valid()
    requires page.Length == PAGE_SIZE && offs + len <= PAGE_SIZE
    modifies table.slots, citable, page
    ensures var o := CryptBlockSpec(env, World(old(table.slots[..]), old(citable.records)), inode, Encrypt, lblk,
                                    old(page[..]), old(page[..]), len, offs, junk);
      res == o.res && table.slots[..] == o.world.slots && citable.records == o.world.file && page[..] == o.dest
  {
    res := CryptBlock(env, table, citable, inode, Encrypt, lblk, page, page, len, offs, junk);
  }

  /** `fscrypt_decrypt_block_inplace`: decrypt one block of a page in place; the table is left as it was. */
  method DecryptBlockInplace(env: Env, table: CryptArray, citable: IndexFile, inode: Inode, page: array<Byte>,
                             len: nat, offs: nat, lblk: u64, junk: nat -> Fingerprint)
    returns (res: int)
    requires ValidEnv(env) && ValidInfo(inode.ci) && table.Valid()
    requires page.Length == PAGE_SIZE && offs + len <= PAGE_SIZE
    modifies table.slots, citable, page
    ensures var o := CryptBlockSpec(env, World(old(table.slots[..]), old(citable.records)), inode, Decrypt, lblk,
                                    old(page[..]), old(page[..]), len, offs, junk);
      res == o.res && page[..] == o.dest
    ensures table.slots[..] == old(table.slots[..]) && citable.records == old(citable.records)
  {
    res := CryptBlock(env, table, citable, inode, Decrypt, lblk, page, page, len, offs, junk);
    BlockWritesOnlyItsRange(env, World(old(table.slots[..]), old(citable.records)), inode, Decrypt, lblk,
                            old(page[..]), old(page[..]), len, offs, junk);
  }

  // ---------------------------------------------------------------------
  // Block numbering in the pagecache loops (crypto.c:315-316, 395-396).

  /** `((u64)page->index << (PAGE_SHIFT - blockbits)) + (offs >> blockbits)` in wrapping `u64`. */
  function FirstLblk(index: u64, offs: nat, bb: nat): u64
    requires bb <= PAGE_SHIFT
  {
    Wrap64(Shl64(index, PAGE_SHIFT - bb) + Shr(offs, bb))
  }

  /** The next block of the page gets the next block number, in wrapping `u64` (`lblk_num++`). */
  lemma LblkAdvance(index: u64, offs: nat, bb: nat)
    requires bb <= PAGE_SHIFT
    ensures FirstLblk(index, offs + Pow2(bb), bb) == Wrap64(FirstLblk(index, offs, bb) + 1)
  {
    var a, s := Shl64(index, PAGE_SHIFT - bb), Shr(offs, bb);
    ShrAddPow2(offs, bb);
    WrapAddLeft(a + s, 1);
  }

  /**
   * Block numbering: when the byte position fits in 64 bits, the first
   * block number is the index, within the file, of the block holding byte
   * `offs` of page `index`.
   */
  lemma LblkNumbering(index: u64, offs: nat, bb: nat)
    requires bb <= PAGE_SHIFT && index * PAGE_SIZE + offs < TWO_TO_THE_64
    ensures FirstLblk(index, offs, bb) == Shr(index * PAGE_SIZE + offs, bb)
  {
    PageShr(index, offs, bb);
    WrapSmall(Shl64(index, PAGE_SHIFT - bb) + Shr(offs, bb));
  }

  /** Shifting the byte position right splits into the blocks before the page and those before `offs`. */
  lemma PageShr(index: u64, offs: nat, bb: nat)
    requires bb <= PAGE_SHIFT && index * PAGE_SIZE + offs < TWO_TO_THE_64
    ensures Shr(index * PAGE_SIZE + offs, bb) == Shl64(index, PAGE_SHIFT - bb) + Shr(offs, bb)
  {
    var a := Shl64(index, PAGE_SHIFT - bb);
    assert offs + a * Pow2(bb) == index * PAGE_SIZE + offs by {
      PageIndexShift(index, bb);
    }
    ShrAddMultiple(offs, a, bb);
  }

  /** Without overflow, shifting the page index left by `PAGE_SHIFT - bb` counts the blocks before the page. */
  lemma PageIndexShift(index: u64, bb: nat)
    requires bb <= PAGE_SHIFT && index * PAGE_SIZE < TWO_TO_THE_64
    ensures Shl64(index, PAGE_SHIFT - bb) * Pow2(bb) == index * PAGE_SIZE
  {
    var p, q := Pow2(bb), Pow2(PAGE_SHIFT - bb);
    assert q * p == PAGE_SIZE && q <= PAGE_SIZE by {
      PageFactors(bb);
    }
    var a := index * q;
    assert a < TWO_TO_THE_64 by {
      MulMonotone(q, PAGE_SIZE, index);
    }
    assert a * p == index * (q * p) by {
      MulAssociates(index, q, p);
    }
    WrapSmall(a);
  }

  /** A page holds 2^(PAGE_SHIFT - bb) blocks of 2^bb bytes. */
  lemma PageFactors(bb: nat)
    requires bb <= PAGE_SHIFT
    ensures Pow2(PAGE_SHIFT - bb) * Pow2(bb) == PAGE_SIZE && Pow2(PAGE_SHIFT - bb) <= PAGE_SIZE
  {
    Pow2Add(PAGE_SHIFT - bb, bb);
    Pow2Add(4, 8);
    Pow2Byte();
    assert Pow2(4) == 16;
    MulMonotone(1, Pow2(bb), Pow2(PAGE_SHIFT - bb));
  }

  // ---------------------------------------------------------------------
  // The pagecache loops.

  /**
   * The block loop of a pagecache call, cipher half: blocks of `bs` bytes
   * from byte `i` up to byte `end`, block numbers counting up from `lblk` in
   * wrapping `u64`, stopping at the first error. In place (decryption) each
   * block is read from the page as the earlier blocks left it. The trace
   * keeps the result, the final page, and the page as it stood after each
   * successful block, which is what an encryption hands to the table half.
   */
  datatype Trace = Trace(res: int, dest: seq<Byte>, pages: seq<seq<Byte>>)

  function CryptBlocks(env: Env, inode: Inode, rw: Direction, lblk: u64,
                       src: seq<Byte>, dest: seq<Byte>, inPlace: bool, i: nat, end: nat, bs: nat): (t: Trace)
    requires ValidEnv(env) && ValidInfo(inode.ci)
    requires |src| == PAGE_SIZE && |dest| == PAGE_SIZE
    requires i <= end <= PAGE_SIZE && MultipleOf(end - i, bs)
    ensures |t.dest| == PAGE_SIZE
    decreases end - i
  {
    if i == end then Trace(0, dest, [])
    else match BlockData(env, inode, rw, lblk, if inPlace then dest else src, dest, bs, i)
      case Err(code) => Trace(code, dest, [])
      case Ok(written) =>
        var t := CryptBlocks(env, inode, rw, Wrap64(lblk + 1), src, written, inPlace, i + bs, end, bs);
        Trace(t.res, t.dest, [written] + t.pages)
  }

  /** The table half of the loop: one `Record` per successful block, in order; after the first, the table and "/citable" mirror each other. */
  function RecordAll(env: Env, w: World, pages: seq<seq<Byte>>, ino: u64, junk: nat -> Fingerprint): (r: World)
    requires |w.slots| == DEDUP_TABLE_SIZE
    ensures |r.slots| == DEDUP_TABLE_SIZE
    ensures pages != [] ==> Mirrored(r)
    decreases |pages|
  {
    if pages == [] then w else RecordAll(env, Record(env, w, pages[0], ino, junk), pages[1..], ino, junk)
  }

  /** Reloading a table that mirrors "/citable" gives the same table back, whatever the placeholders hold. */
  lemma ReloadMirrored(w: World, junk: nat -> Fingerprint)
    requires Mirrored(w)
    ensures Reloaded(w.slots, w.file, junk) == w.slots
  {
    forall i | 0 <= i < DEDUP_TABLE_SIZE ensures Reloaded(w.slots, w.file, junk)[i] == w.slots[i] {
      assert w.file[i] == w.file[..DEDUP_TABLE_SIZE][i];
    }
  }

  /**
   * One encryption's table half keeps an earlier owner: a digest the reload
   * finds in a live slot is found in the same slot, holding the same record,
   * in the table the flush writes back.
   */
  lemma RecordKeepsFound(env: Env, w: World, page: seq<Byte>, ino: u64, junk: nat -> Fingerprint, f: Fingerprint, i: nat)
    requires |w.slots| == DEDUP_TABLE_SIZE
    requires SearchSpec(Reloaded(w.slots, w.file, junk), f) == Some(i)
    requires Reloaded(w.slots, w.file, junk)[i].item.ino > 0
    ensures var r := Record(env, w, page, ino, junk);
      SearchSpec(r.slots, f) == Some(i) && r.slots[i] == Reloaded(w.slots, w.file, junk)[i]
  {
    var s := Reloaded(w.slots, w.file, junk);
    RegisterKeepsFound(s, f, env.hashPage(page), ino, i);
    RegisterNoOverwrite(s, env.hashPage(page), ino);
  }

  /**
   * Across the block loop, an owner recorded before it keeps its digest:
   * after every page is registered, the lookup still returns its slot and
   * the slot still holds its record.
   */
  lemma {:induction false} RecordAllKeepsFound(env: Env, w: World, pages: seq<seq<Byte>>, ino: u64, junk: nat -> Fingerprint,
                                               f: Fingerprint, i: nat)
    requires |w.slots| == DEDUP_TABLE_SIZE
    requires SearchSpec(Reloaded(w.slots, w.file, junk), f) == Some(i)
    requires Reloaded(w.slots, w.file, junk)[i].item.ino > 0
    ensures var r := RecordAll(env, w, pages, ino, junk);
      pages != [] ==> SearchSpec(r.slots, f) == Some(i) && r.slots[i] == Reloaded(w.slots, w.file, junk)[i]
    decreases |pages|
  {
    if pages != [] {
      var w1 := Record(env, w, pages[0], ino, junk);
      RecordKeepsFound(env, w, pages[0], ino, junk, f, i);
      if pages[1..] != [] {
        ReloadMirrored(w1, junk);
        RecordAllKeepsFound(env, w1, pages[1..], ino, junk, f, i);
      }
    }
  }

  /**
   * No overwrite across the loop: it returns 0 or a negative errno, only the
   * bytes from `i` to `end` change, and a successful loop hands one page per
   * block to the table half, while a failed one hands fewer.
   */
  lemma {:induction false} BlocksWriteOnlyTheirRange(env: Env, inode: Inode, rw: Direction, lblk: u64,
                                                     src: seq<Byte>, dest: seq<Byte>, inPlace: bool, i: nat, end: nat, bs: nat)
    requires ValidEnv(env) && ValidInfo(inode.ci)
    requires |src| == PAGE_SIZE && |dest| == PAGE_SIZE
    requires i <= end <= PAGE_SIZE && MultipleOf(end - i, bs)
    ensures var t := CryptBlocks(env, inode, rw, lblk, src, dest, inPlace, i, end, bs);
      && t.res <= 0
      && (forall j :: 0 <= j < PAGE_SIZE && !(i <= j < end) ==> t.dest[j] == dest[j])
      && (t.res == 0 ==> |t.pages| == Steps(end - i, bs))
      && (t.res != 0 ==> |t.pages| < Steps(end - i, bs))
    decreases end - i
  {
    if i < end {
      var s := if inPlace then dest else src;
      var d := BlockData(env, inode, rw, lblk, s, dest, bs, i);
      StepsCons(end - i, end - (i + bs), bs);
      if d.Ok? {
        BlockDataWritesItsRange(env, inode, rw, lblk, s, dest, bs, i);
        BlocksWriteOnlyTheirRange(env, inode, rw, Wrap64(lblk + 1), src, d.value, inPlace, i + bs, end, bs);
      }
    }
  }

  /** The number of `d`-byte blocks in `x` bytes. */
  function Steps(x: nat, d: nat): nat
    requires MultipleOf(x, d)
    decreases x
  {
    if x == 0 then 0 else Steps(x - d, d) + 1
  }

  /** A non-empty range has one block more than the range past its first block. */
  lemma StepsCons(x: nat, y: nat, bs: nat)
    requires MultipleOf(x, bs) && x > 0 && y == x - bs
    ensures bs > 0 && MultipleOf(y, bs) && Steps(x, bs) == Steps(y, bs) + 1
  {
  }

  /** Past the first block, the block count is one less and the block number one more. */
  lemma StepsNext(lblk: u64, x: nat, bs: nat)
    requires MultipleOf(x, bs) && x > 0
    ensures bs > 0 && x >= bs && MultipleOf(x - bs, bs)
    ensures Wrap64(Wrap64(lblk + 1) + Steps(x - bs, bs)) == Wrap64(lblk + Steps(x, bs))
  {
    WrapAddLeft(lblk + 1, Steps(x - bs, bs));
  }

  /** Every block of `[i, end)` is done, the `k`-th one with block number `lblk + k` (wrapping at 2^64). */
  ghost predicate Numbered(env: Env, inode: Inode, rw: Direction, lblk: u64, src: seq<Byte>, d: seq<Byte>,
                           i: nat, end: nat, bs: nat)
    requires ValidInfo(inode.ci) && |src| == PAGE_SIZE && |d| == PAGE_SIZE && end <= PAGE_SIZE
  {
    forall x: nat :: MultipleOf(x, bs) && i + x + bs <= end ==>
      BlockDone(env, inode, rw, Wrap64(lblk + Steps(x, bs)), src, d, i + x, bs)
  }

  lemma NumberedCons(env: Env, inode: Inode, rw: Direction, lblk: u64, src: seq<Byte>, d: seq<Byte>,
                     i: nat, end: nat, bs: nat)
    requires ValidInfo(inode.ci) && |src| == PAGE_SIZE && |d| == PAGE_SIZE && bs > 0 && i + bs <= end <= PAGE_SIZE
    requires BlockDone(env, inode, rw, lblk, src, d, i, bs)
    requires Numbered(env, inode, rw, Wrap64(lblk + 1), src, d, i + bs, end, bs)
    ensures Numbered(env, inode, rw, lblk, src, d, i, end, bs)
  {
    forall x: nat | MultipleOf(x, bs) && i + x + bs <= end
      ensures BlockDone(env, inode, rw, Wrap64(lblk + Steps(x, bs)), src, d, i + x, bs)
    {
      if x == 0 {
        assert lblk + Steps(x, bs) == lblk;
        WrapSmall(lblk);
      } else {
        var y := x - bs;
        StepsNext(lblk, x, bs);
        assert (i + bs) + y == i + x;
        assert BlockDone(env, inode, rw, Wrap64(Wrap64(lblk + 1) + Steps(y, bs)), src, d, (i + bs) + y, bs);
      }
    }
  }

  /** A successful first block keeps its ciphertext through the rest of the loop. */
  lemma FirstBlockKept(env: Env, inode: Inode, rw: Direction, lblk: u64,
                       src: seq<Byte>, dest: seq<Byte>, i: nat, end: nat, bs: nat)
    requires ValidEnv(env) && ValidInfo(inode.ci)
    requires |src| == PAGE_SIZE && |dest| == PAGE_SIZE
    requires bs > 0 && i + bs <= end <= PAGE_SIZE && MultipleOf(end - (i + bs), bs)
    ensures var d := BlockData(env, inode, rw, lblk, src, dest, bs, i);
      d.Ok? ==>
        var u := CryptBlocks(env, inode, rw, Wrap64(lblk + 1), src, d.value, false, i + bs, end, bs);
        BlockDone(env, inode, rw, lblk, src, u.dest, i, bs)
  {
    var d := BlockData(env, inode, rw, lblk, src, dest, bs, i);
    if d.Ok? {
      var u := CryptBlocks(env, inode, rw, Wrap64(lblk + 1), src, d.value, false, i + bs, end, bs);
      BlockDataWritesItsRange(env, inode, rw, lblk, src, dest, bs, i);
      BlocksWriteOnlyTheirRange(env, inode, rw, Wrap64(lblk + 1), src, d.value, false, i + bs, end, bs);
      assert u.dest[i..i + bs] == d.value[i..i + bs];
    }
  }

  /**
   * Block numbering of the page loop: when every block of `[i, end)`
   * succeeds, the `k`-th block is ciphered with the IV of block number
   * `lblk + k`, the number `fscrypt_crypt_block` is handed.
   */
  lemma {:induction false} BlocksNumbered(env: Env, inode: Inode, rw: Direction, lblk: u64,
                                          src: seq<Byte>, dest: seq<Byte>, i: nat, end: nat, bs: nat)
    requires ValidEnv(env) && ValidInfo(inode.ci)
    requires |src| == PAGE_SIZE && |dest| == PAGE_SIZE
    requires bs > 0 && i <= end <= PAGE_SIZE && MultipleOf(end - i, bs)
    ensures var t := CryptBlocks(env, inode, rw, lblk, src, dest, false, i, end, bs);
      t.res == 0 ==> Numbered(env, inode, rw, lblk, src, t.dest, i, end, bs)
    decreases end - i
  {
    if i < end {
      CryptBlocksStep(env, inode, rw, lblk, src, dest, false, i, end, bs);
      var d := BlockData(env, inode, rw, lblk, src, dest, bs, i);
      if d.Ok? {
        var next := Wrap64(lblk + 1);
        var u := CryptBlocks(env, inode, rw, next, src, d.value, false, i + bs, end, bs);
        BlocksNumbered(env, inode, rw, next, src, d.value, i + bs, end, bs);
        FirstBlockKept(env, inode, rw, lblk, src, dest, i, end, bs);
        if u.res == 0 {
          NumberedCons(env, inode, rw, lblk, src, u.dest, i, end, bs);
        }
      }
    } else {
      assert Numbered(env, inode, rw, lblk, src, dest, i, end, bs);
    }
  }

  /** `len > 0 && IS_ALIGNED(len | offs, blocksize)`: both are multiples of the power-of-two block size. */
  predicate BlocksAligned(len: nat, offs: nat, bb: nat)
  {
    len > 0 && MultipleOf(len, Pow2(bb)) && MultipleOf(offs, Pow2(bb))
  }

  /** The two alignment tests are `IS_ALIGNED(len | offs, blocksize)` on `unsigned int` operands. */
  lemma BlocksAlignedIsBitwise(len: nat, offs: nat, bb: nat)
    requires bb <= PAGE_SHIFT
    ensures BlocksAligned(len, offs, bb) <==> len > 0 && MultipleOf(BitOr(len, offs, 32), Pow2(bb))
  {
    BitOrAligned(len, offs, bb, 32);
    MultipleOfMod(BitOr(len, offs, 32), Pow2(bb));
    MultipleOfMod(len, Pow2(bb));
    MultipleOfMod(offs, Pow2(bb));
  }

  /** A pagecache page: its index in the file, its owner `page->mapping->host`, `PageLocked`, and its bytes. */
  class Page {
    const index: u64
    const host: Inode
    const locked: bool
    const data: array<Byte>

    ghost predicate Valid()
      reads this
    {
      data.Length == PAGE_SIZE && ValidInode(host)
    }

    constructor (index: u64, host: Inode, locked: bool, data: array<Byte>)
      requires data.Length == PAGE_SIZE && ValidInode(host)
      ensures Valid()
      ensures this.index == index && this.host == host && this.locked == locked && this.data == data
    {
      this.index := index;
      this.host := host;
      this.locked := locked;
      this.data := data;
    }
  }

  /** One step of the fold: the first block's result decides the rest. */
  lemma CryptBlocksStep(env: Env, inode: Inode, rw: Direction, lblk: u64,
                        src: seq<Byte>, dest: seq<Byte>, inPlace: bool, i: nat, end: nat, bs: nat)
    requires ValidEnv(env) && ValidInfo(inode.ci)
    requires |src| == PAGE_SIZE && |dest| == PAGE_SIZE
    requires i < end <= PAGE_SIZE && MultipleOf(end - i, bs)
    ensures i + bs <= end && MultipleOf(end - (i + bs), bs)
    ensures var d := BlockData(env, inode, rw, lblk, if inPlace then dest else src, dest, bs, i);
      var t := CryptBlocks(env, inode, rw, lblk, src, dest, inPlace, i, end, bs);
      && (d.Err? ==> t == Trace(d.code, dest, []))
      && (d.Ok? ==>
            var u := CryptBlocks(env, inode, rw, Wrap64(lblk + 1), src, d.value, inPlace, i + bs, end, bs);
            t == Trace(u.res, u.dest, [d.value] + u.pages))
  {
  }

  /** Recording one more page after `done` records it on top of the world `done` left. */
  lemma {:induction false} RecordAllSnoc(env: Env, w: World, done: seq<seq<Byte>>, page: seq<Byte>, ino: u64,
                                         junk: nat -> Fingerprint)
    requires |w.slots| == DEDUP_TABLE_SIZE
    ensures RecordAll(env, w, done + [page], ino, junk) == Record(env, RecordAll(env, w, done, ino, junk), page, ino, junk)
    decreases |done|
  {
    if done == [] {
      assert [] + [page] == [page];
    } else {
      assert (done + [page])[1..] == done[1..] + [page];
      RecordAllSnoc(env, Record(env, w, done[0], ino, junk), done[1..], page, ino, junk);
    }
  }

  /**
   * Loop invariant of the block loops: the fold from block `i` on gives the
   * outcome `total` of the whole loop, and its pages are those of `total`
   * after the first `k`.
   */
  ghost predicate Remaining(env: Env, inode: Inode, rw: Direction, lblk: u64, src: seq<Byte>, dest: seq<Byte>,
                            inPlace: bool, i: nat, end: nat, bs: nat, total: Trace, k: nat)
    requires ValidEnv(env) && ValidInfo(inode.ci)
    requires |src| == PAGE_SIZE && |dest| == PAGE_SIZE
    requires i <= end <= PAGE_SIZE && MultipleOf(end - i, bs)
  {
    var t := CryptBlocks(env, inode, rw, lblk, src, dest, inPlace, i, end, bs);
    t.res == total.res && t.dest == total.dest && k <= |total.pages| && t.pages == total.pages[k..]
  }

  /**
   * One turn of a block loop: a failing block ends the loop with its error,
   * its page untouched and no more pages; a successful one contributes page
   * `k` and leaves the rest to the next block.
   */
  lemma RemainingStep(env: Env, inode: Inode, rw: Direction, lblk: u64, src: seq<Byte>, dest: seq<Byte>,
                      inPlace: bool, i: nat, end: nat, bs: nat, total: Trace, k: nat)
    requires ValidEnv(env) && ValidInfo(inode.ci)
    requires |src| == PAGE_SIZE && |dest| == PAGE_SIZE
    requires i < end <= PAGE_SIZE && MultipleOf(end - i, bs)
    requires Remaining(env, inode, rw, lblk, src, dest, inPlace, i, end, bs, total, k)
    ensures i + bs <= end && MultipleOf(end - (i + bs), bs)
    ensures var d := BlockData(env, inode, rw, lblk, if inPlace then dest else src, dest, bs, i);
      && (d.Err? ==> total.res == d.code && total.dest == dest && total.pages[..k] == total.pages)
      && (d.Ok? ==>
            && Remaining(env, inode, rw, Wrap64(lblk + 1), src, d.value, inPlace, i + bs, end, bs, total, k + 1)
            && total.pages[..k + 1] == total.pages[..k] + [d.value])
  {
    CryptBlocksStep(env, inode, rw, lblk, src, dest, inPlace, i, end, bs);
    var d := BlockData(env, inode, rw, lblk, if inPlace then dest else src, dest, bs, i);
    if d.Ok? {
      var u := CryptBlocks(env, inode, rw, Wrap64(lblk + 1), src, d.value, inPlace, i + bs, end, bs);
      assert total.pages[k..] == [d.value] + u.pages;
      assert total.pages[k] == total.pages[k..][0];
      assert total.pages[k + 1..] == total.pages[k..][1..];
      assert total.pages[..k + 1] == total.pages[..k] + [total.pages[k]];
    } else {
      assert total.pages[k..] == [];
    }
  }

  /**
   * A successful turn of a block loop, stated on the loop's new variables:
   * the call on block `i` returned 0, so the fold from block `i2 = i + bs`
   * on, with block number `next = lblk + 1` (wrapping), gives the rest of
   * the outcome, the page the call left is page `k` of the outcome, and an
   * encryption recorded that page in the table.
   */
  lemma BlockLoopAdvance(env: Env, w: World, inode: Inode, rw: Direction, lblk: u64, next: u64,
                         src: seq<Byte>, before: seq<Byte>, inPlace: bool, i: nat, i2: nat, end: nat, bs: nat,
                         total: Trace, k: nat, k2: nat, junk: nat -> Fingerprint, o: Outcome)
    requires ValidEnv(env) && ValidInfo(inode.ci) && |w.slots| == DEDUP_TABLE_SIZE
    requires |src| == PAGE_SIZE && |before| == PAGE_SIZE
    requires i < end <= PAGE_SIZE && MultipleOf(end - i, bs)
    requires Remaining(env, inode, rw, lblk, src, before, inPlace, i, end, bs, total, k)
    requires o == CryptBlockSpec(env, w, inode, rw, lblk, if inPlace then before else src, before, bs, i, junk)
    requires o.res == 0 && i2 == i + bs && next == Wrap64(lblk + 1) && k2 == k + 1
    ensures i2 <= end && MultipleOf(end - i2, bs) && |o.dest| == PAGE_SIZE
    ensures Remaining(env, inode, rw, next, src, o.dest, inPlace, i2, end, bs, total, k2)
    ensures total.pages[..k2] == total.pages[..k] + [o.dest]
    ensures o.world == if rw == Encrypt then Record(env, w, o.dest, inode.ino, junk) else w
  {
    RemainingStep(env, inode, rw, lblk, src, before, inPlace, i, end, bs, total, k);
  }

  /** A failing turn of a block loop: its error, its page and the pages so far are the whole outcome. */
  lemma BlockLoopStop(env: Env, w: World, inode: Inode, rw: Direction, lblk: u64,
                      src: seq<Byte>, before: seq<Byte>, inPlace: bool, i: nat, end: nat, bs: nat,
                      total: Trace, k: nat, junk: nat -> Fingerprint, o: Outcome)
    requires ValidEnv(env) && ValidInfo(inode.ci) && |w.slots| == DEDUP_TABLE_SIZE
    requires |src| == PAGE_SIZE && |before| == PAGE_SIZE
    requires i < end <= PAGE_SIZE && MultipleOf(end - i, bs)
    requires Remaining(env, inode, rw, lblk, src, before, inPlace, i, end, bs, total, k)
    requires o == CryptBlockSpec(env, w, inode, rw, lblk, if inPlace then before else src, before, bs, i, junk)
    requires o.res != 0
    ensures o.res == total.res && o.dest == total.dest && o.world == w && total.pages[..k] == total.pages
  {
    RemainingStep(env, inode, rw, lblk, src, before, inPlace, i, end, bs, total, k);
  }

  /** A successful turn of the encryption loop: the table and file hold the records of one more page. */
  lemma EncryptAdvance(env: Env, w0: World, w: World, inode: Inode, lblk: u64, next: u64,
                       plain: seq<Byte>, before: seq<Byte>, i: nat, i2: nat, end: nat, bs: nat,
                       total: Trace, k: nat, k2: nat, junk: nat -> Fingerprint, o: Outcome)
    requires ValidEnv(env) && ValidInfo(inode.ci) && |w0.slots| == DEDUP_TABLE_SIZE
    requires |plain| == PAGE_SIZE && |before| == PAGE_SIZE
    requires i < end <= PAGE_SIZE && MultipleOf(end - i, bs)
    requires Remaining(env, inode, Encrypt, lblk, plain, before, false, i, end, bs, total, k)
    requires w == RecordAll(env, w0, total.pages[..k], inode.ino, junk)
    requires o == CryptBlockSpec(env, w, inode, Encrypt, lblk, plain, before, bs, i, junk)
    requires o.res == 0 && i2 == i + bs && next == Wrap64(lblk + 1) && k2 == k + 1
    ensures i2 <= end && MultipleOf(end - i2, bs) && |o.dest| == PAGE_SIZE
    ensures Remaining(env, inode, Encrypt, next, plain, o.dest, false, i2, end, bs, total, k2)
    ensures o.world == RecordAll(env, w0, total.pages[..k2], inode.ino, junk)
  {
    BlockLoopAdvance(env, w, inode, Encrypt, lblk, next, plain, before, false, i, i2, end, bs, total, k, k2, junk, o);
    RecordAllSnoc(env, w0, total.pages[..k], o.dest, inode.ino, junk);
  }

  /** A block loop that ran to the end produced the whole outcome. */
  lemma RemainingDone(env: Env, inode: Inode, rw: Direction, lblk: u64, src: seq<Byte>, dest: seq<Byte>,
                      inPlace: bool, i: nat, end: nat, bs: nat, total: Trace, k: nat)
    requires ValidEnv(env) && ValidInfo(inode.ci)
    requires |src| == PAGE_SIZE && |dest| == PAGE_SIZE
    requires i == end <= PAGE_SIZE
    requires Remaining(env, inode, rw, lblk, src, dest, inPlace, i, end, bs, total, k)
    ensures total.res == 0 && total.dest == dest && total.pages[..k] == total.pages
  {
    assert total.pages[k..] == [];
  }

  /** A loop over one page-sized block is a single cipher call on the whole page. */
  lemma WholePageBlock(env: Env, inode: Inode, rw: Direction, lblk: u64, src: seq<Byte>, dest: seq<Byte>, inPlace: bool)
    requires ValidEnv(env) && ValidInfo(inode.ci) && |src| == PAGE_SIZE && |dest| == PAGE_SIZE
    ensures var x := if inPlace then dest else src;
      var r := env.cipher(rw, inode.ci, GenerateIv(EffectiveLblk(env, rw, lblk, x), inode.ci, inode.ino), x);
      var t := CryptBlocks(env, inode, rw, lblk, src, dest, inPlace, 0, PAGE_SIZE, PAGE_SIZE);
      && (r.Err? ==> t == Trace(r.code, dest, []))
      && (r.Ok? ==> t == Trace(0, r.value, [r.value]))
  {
    CryptBlocksStep(env, inode, rw, lblk, src, dest, inPlace, 0, PAGE_SIZE, PAGE_SIZE);
    var x := if inPlace then dest else src;
    assert x[0..PAGE_SIZE] == x;
    var r := env.cipher(rw, inode.ci, GenerateIv(EffectiveLblk(env, rw, lblk, x), inode.ci, inode.ino), x);
    if r.Ok? {
      assert dest[..0] + r.value + dest[PAGE_SIZE..] == r.value;
    }
  }

  /**
   * Deduplicated read-back: inode `a` encrypts a one-block page with block
   * number `lblk` and records the ciphertext's new digest `d`; the
   * fingerprint table recovers `lblk` for `d`. A later in-place decryption
   * of that ciphertext, on behalf of any host inode and with any block
   * number, after any reload of "/citable", resolves the owner to `a`
   * (`f2fs_iget(a.ino)`), uses `lblk`, and gives the plaintext back.
   */
  lemma DedupRoundTrip(env: Env, w: World, a: Inode, lblk: u64, p: seq<Byte>, b0: seq<Byte>, junk: nat -> Fingerprint,
                       later: seq<Slot>, junk2: nat -> Fingerprint, host: Inode, lblk2: u64)
    requires ValidEnv(env) && CipherInverts(env) && ValidInfo(a.ci) && ValidInfo(host.ci)
    requires |w.slots| == DEDUP_TABLE_SIZE && |later| == DEDUP_TABLE_SIZE
    requires |p| == PAGE_SIZE && |b0| == PAGE_SIZE
    requires CryptBlocks(env, a, Encrypt, lblk, p, b0, false, 0, PAGE_SIZE, PAGE_SIZE).res == 0
    requires var d := env.hashPage(CryptBlocks(env, a, Encrypt, lblk, p, b0, false, 0, PAGE_SIZE, PAGE_SIZE).dest);
      var s0 := Reloaded(w.slots, w.file, junk);
      SearchSpec(s0, d).None? && FreeSlot(s0, d).Some? && env.fingerLblk(d) == Some(lblk)
    requires env.iget(a.ino) == a
    ensures var t := CryptBlocks(env, a, Encrypt, lblk, p, b0, false, 0, PAGE_SIZE, PAGE_SIZE);
      var c, d := t.dest, env.hashPage(t.dest);
      var w1 := RecordAll(env, w, t.pages, a.ino, junk);
      var owner := Owner(env, Reloaded(later, w1.file, junk2), host, d);
      var u := CryptBlocks(env, owner, Decrypt, lblk2, c, c, true, 0, PAGE_SIZE, PAGE_SIZE);
      u.res == 0 && u.dest == p
  {
    var t := CryptBlocks(env, a, Encrypt, lblk, p, b0, false, 0, PAGE_SIZE, PAGE_SIZE);
    WholePageBlock(env, a, Encrypt, lblk, p, b0, false);
    var c := t.dest;
    var d := env.hashPage(c);
    var s0 := Reloaded(w.slots, w.file, junk);
    var slots := Register(s0, d, a.ino);
    assert Record(env, w, c, a.ino, junk) == World(slots, Flushed(slots, w.file));
    assert RecordAll(env, w, t.pages, a.ino, junk) == RecordAll(env, Record(env, w, c, a.ino, junk), [], a.ino, junk) by {
      assert t.pages == [c] && t.pages[1..] == [];
    }
    ReloadAfterFlush(slots, w.file, later, junk2);
    RegisterThenSearch(s0, d, a.ino);
    assert Owner(env, slots, host, d) == a;
    WholePageBlock(env, a, Decrypt, lblk2, c, c, true);
  }

  /**
   * The block loop of `fscrypt_encrypt_pagecache_blocks`: encrypt the blocks
   * of `[offs, offs + len)` of `src` into `dest`, block numbers counting up from
   * `lblk`, recording each ciphertext page in the table; stop at the first
   * error.
   */
  method EncryptBlocks(env: Env, table: CryptArray, citable: IndexFile, inode: Inode, src: array<Byte>, dest: array<Byte>,
                       lblk: u64, offs: nat, len: nat, bs: nat, junk: nat -> Fingerprint)
    returns (err: int)
    requires ValidEnv(env) && ValidInfo(inode.ci) && table.Valid()
    requires src.Length == PAGE_SIZE && dest.Length == PAGE_SIZE && src != dest
    requires offs + len <= PAGE_SIZE && MultipleOf(len, bs)
    modifies table.slots, citable, dest
    ensures var t := CryptBlocks(env, inode, Encrypt, lblk, src[..], old(dest[..]), false, offs, offs + len, bs);
      && err == t.res && dest[..] == t.dest
      && World(table.slots[..], citable.records)
           == RecordAll(env, World(old(table.slots[..]), old(citable.records)), t.pages, inode.ino, junk)
  {
    ghost var plain := src[..];
    ghost var w0 := World(table.slots[..], citable.records);
    ghost var total := CryptBlocks(env, inode, Encrypt, lblk, plain, dest[..], false, offs, offs + len, bs);
    ghost var k := 0;
    var end := offs + len;
    var lblkNum: u64 := lblk;
    var i := offs;
    while i < end
      invariant offs <= i <= end && MultipleOf(end - i, bs)
      invariant src[..] == plain
      invariant Remaining(env, inode, Encrypt, lblkNum, plain, dest[..], false, i, end, bs, total, k)
      invariant World(table.slots[..], citable.records) == RecordAll(env, w0, total.pages[..k], inode.ino, junk)
      decreases end - i
    {
      ghost var w, before, was, lblkWas, kWas := World(table.slots[..], citable.records), dest[..], i, lblkNum, k;
      err := CryptBlock(env, table, citable, inode, Encrypt, lblkNum, src, dest, bs, i, junk);
      ghost var o := CryptBlockSpec(env, w, inode, Encrypt, lblkWas, plain, before, bs, was, junk);
      if err != 0 {
        BlockLoopStop(env, w, inode, Encrypt, lblkWas, plain, before, false, was, end, bs, total, k, junk, o);
        return;
      }
      k := k + 1;
      i := i + bs;
      lblkNum := Wrap64(lblkNum + 1);
      EncryptAdvance(env, w0, w, inode, lblkWas, lblkNum, plain, before, was, i, end, bs, total, kWas, k, junk, o);
    }
    RemainingDone(env, inode, Encrypt, lblkNum, plain, dest[..], false, i, end, bs, total, k);
    err := 0;
  }

  /**
   * The block loop of `fscrypt_decrypt_pagecache_blocks`: decrypt the blocks
   * of `[offs, offs + len)` of `data` in place, block numbers counting up from
   * `lblk`; stop at the first error. The table and the file are left alone.
   */
  method DecryptBlocks(env: Env, table: CryptArray, citable: IndexFile, inode: Inode, data: array<Byte>,
                       lblk: u64, offs: nat, len: nat, bs: nat, junk: nat -> Fingerprint)
    returns (err: int)
    requires ValidEnv(env) && ValidInfo(inode.ci) && table.Valid() && data.Length == PAGE_SIZE
    requires offs + len <= PAGE_SIZE && MultipleOf(len, bs)
    modifies table.slots, citable, data
    ensures var t := CryptBlocks(env, inode, Decrypt, lblk, old(data[..]), old(data[..]), true, offs, offs + len, bs);
      err == t.res && data[..] == t.dest
    ensures table.slots[..] == old(table.slots[..]) && citable.records == old(citable.records)
  {
    ghost var src := data[..];
    ghost var total := CryptBlocks(env, inode, Decrypt, lblk, src, src, true, offs, offs + len, bs);
    ghost var k := 0;
    var end := offs + len;
    var lblkNum: u64 := lblk;
    var i := offs;
    while i < end
      invariant offs <= i <= end && MultipleOf(end - i, bs)
      invariant table.slots[..] == old(table.slots[..]) && citable.records == old(citable.records)
      invariant Remaining(env, inode, Decrypt, lblkNum, src, data[..], true, i, end, bs, total, k)
      decreases end - i
    {
      ghost var w, before, was, lblkWas, kWas := World(table.slots[..], citable.records), data[..], i, lblkNum, k;
      err := CryptBlock(env, table, citable, inode, Decrypt, lblkNum, data, data, bs, i, junk);
      ghost var o := CryptBlockSpec(env, w, inode, Decrypt, lblkWas, before, before, bs, was, junk);
      if err != 0 {
        BlockLoopStop(env, w, inode, Decrypt, lblkWas, src, before, true, was, end, bs, total, k, junk, o);
        return;
      }
      k := k + 1;
      i := i + bs;
      lblkNum := Wrap64(lblkNum + 1);
      BlockLoopAdvance(env, w, inode, Decrypt, lblkWas, lblkNum, src, before, true, was, i, end, bs, total, kWas, k, junk, o);
    }
    RemainingDone(env, inode, Decrypt, lblkNum, src, data[..], true, i, end, bs, total, k);
    err := 0;
  }

  /**
   * `fscrypt_encrypt_pagecache_blocks`: refuse an unlocked page or a zero
   * or misaligned range with -EINVAL and a failed bounce-page allocation
   * (`bounce == null`) with -ENOMEM; otherwise encrypt the blocks of the
   * page into the bounce page one by one, block numbers counting up from
   * that of byte `offs`, recording each ciphertext page in the table, and
   * return the bounce page, or the first error.
   */
  method EncryptPagecacheBlocks(env: Env, table: CryptArray, citable: IndexFile, page: Page, len: nat, offs: nat,
                                bounce: array?<Byte>, junk: nat -> Fingerprint)
    returns (r: Result<array<Byte>>)
    requires ValidEnv(env) && table.Valid() && page.Valid() && offs + len <= PAGE_SIZE
    requires bounce != null ==> bounce.Length == PAGE_SIZE && bounce != page.data
    modifies table.slots, citable, bounce
    ensures !page.locked || !BlocksAligned(len, offs, page.host.blkbits) ==> r == Err(-EINVAL)
    ensures page.locked && BlocksAligned(len, offs, page.host.blkbits) && bounce == null ==> r == Err(-ENOMEM)
    ensures !(page.locked && BlocksAligned(len, offs, page.host.blkbits) && bounce != null) ==>
      table.slots[..] == old(table.slots[..]) && citable.records == old(citable.records)
    ensures !(page.locked && BlocksAligned(len, offs, page.host.blkbits)) && bounce != null ==>
      bounce[..] == old(bounce[..])
    ensures page.locked && BlocksAligned(len, offs, page.host.blkbits) && bounce != null ==>
      var bb := page.host.blkbits;
      var t := CryptBlocks(env, page.host, Encrypt, FirstLblk(page.index, offs, bb), page.data[..], old(bounce[..]), false,
                           offs, offs + len, Pow2(bb));
      && r == (if t.res == 0 then Ok(bounce) else Err(t.res))
      && bounce[..] == t.dest
      && World(table.slots[..], citable.records)
           == RecordAll(env, World(old(table.slots[..]), old(citable.records)), t.pages, page.host.ino, junk)
  {
    var inode := page.host;
    var blockbits := inode.blkbits;
    var blocksize := Pow2(blockbits);
    var lblkNum := FirstLblk(page.index, offs, blockbits);
    if !page.locked {
      return Err(-EINVAL);
    }
    if len == 0 || !MultipleOf(len, blocksize) || !MultipleOf(offs, blocksize) {
      return Err(-EINVAL);
    }
    if bounce == null {
      return Err(-ENOMEM);
    }
    var err := EncryptBlocks(env, table, citable, inode, page.data, bounce, lblkNum, offs, len, blocksize, junk);
    if err != 0 {
      return Err(err);
    }
    return Ok(bounce);
  }

  /**
   * The owner lookup of `fscrypt_decrypt_pagecache_blocks`: reload the table
   * from "/citable", look up the digest of the page and `f2fs_iget` the
   * inode recorded for it; without a record, the page's own inode.
   */
  method ResolveOwner(env: Env, table: CryptArray, citable: IndexFile, page: Page, junk: nat -> Fingerprint)
    returns (owner: Inode)
    requires ValidEnv(env) && table.Valid() && page.Valid()
    modifies table.slots
    ensures table.slots[..] == Reloaded(old(table.slots[..]), citable.records, junk)
    ensures owner == Owner(env, table.slots[..], page.host, env.hashPage(page.data[..]))
    ensures ValidInfo(owner.ci)
  {
    table.Reload(citable, junk);
    var digest := env.hashPage(page.data[..]);
    var item := table.Search(digest);
    owner := page.host;
    if item.Some? {
      assert table.slots[..][item.value].Present?;
      owner := env.iget(table.slots[item.value].item.ino);
    }
  }

  /**
   * `fscrypt_decrypt_pagecache_blocks`: refuse an unlocked page or a zero or
   * misaligned range with -EINVAL; otherwise reload the table from
   * "/citable", decrypt as the inode the table records for the page's
   * digest (`f2fs_iget`) or else as the page's own inode, and decrypt the
   * blocks in place one by one; the block size and the first block number
   * (that of byte `offs`) are those of the page's own inode, taken before
   * the lookup. The first error is returned.
   */
  method DecryptPagecacheBlocks(env: Env, table: CryptArray, citable: IndexFile, page: Page, len: nat, offs: nat,
                                junk: nat -> Fingerprint)
    returns (err: int)
    requires ValidEnv(env) && table.Valid() && page.Valid() && offs + len <= PAGE_SIZE
    modifies table.slots, citable, page.data
    ensures citable.records == old(citable.records)
    ensures !page.locked || !BlocksAligned(len, offs, page.host.blkbits) ==>
      err == -EINVAL && table.slots[..] == old(table.slots[..]) && page.data[..] == old(page.data[..])
    ensures page.locked && BlocksAligned(len, offs, page.host.blkbits) ==>
      var bb := page.host.blkbits;
      var s := Reloaded(old(table.slots[..]), old(citable.records), junk);
      var owner := Owner(env, s, page.host, env.hashPage(old(page.data[..])));
      var t := CryptBlocks(env, owner, Decrypt, FirstLblk(page.index, offs, bb), old(page.data[..]), old(page.data[..]), true,
                           offs, offs + len, Pow2(bb));
      err == t.res && table.slots[..] == s && page.data[..] == t.dest
  {
    var inode := page.host;
    var blockbits := inode.blkbits;
    var blocksize := Pow2(blockbits);
    var lblkNum := FirstLblk(page.index, offs, blockbits);
    if !page.locked {
      return -EINVAL;
    }
    if len == 0 || !MultipleOf(len, blocksize) || !MultipleOf(offs, blocksize) {
      return -EINVAL;
    }
    inode := ResolveOwner(env, table, citable, page, junk);
    err := DecryptBlocks(env, table, citable, inode, page.data, lblkNum, offs, len, blocksize, junk);
  }
}
