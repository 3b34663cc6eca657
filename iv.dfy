/**
 * `fscrypt_generate_iv`: the per-block initialisation vector. The IV buffer
 * (`union fscrypt_iv`) starts with a little-endian 64-bit block field
 * followed by a 16-byte nonce; the cipher reads its first `ivsize` bytes.
 */
module Iv {
  import opened KernelTypes

  /** Policy flags, as in the fscrypt UAPI header. */
  const FSCRYPT_POLICY_FLAG_DIRECT_KEY: nat := 0x04
  const FSCRYPT_POLICY_FLAG_IV_INO_LBLK_64: nat := 0x08
  const FSCRYPT_POLICY_FLAG_IV_INO_LBLK_32: nat := 0x10

  const FSCRYPT_FILE_NONCE_SIZE: nat := 16
  const FSCRYPT_MAX_IV_SIZE: nat := 32
  const U32_MAX: u64 := 0xFFFF_FFFF

  /** Byte offset of the nonce inside `union fscrypt_iv`, just after the 8-byte block field. */
  const NONCE_OFFSET: nat := 8

  /**
   * The parts of `struct fscrypt_info` the IV and the cipher use: the policy
   * flags, the mode's IV size, the hashed inode number, the file nonce and a
   * handle for the prepared key.
   */
  datatype CryptInfo = CryptInfo(policyFlags: Byte, ivsize: nat, hashedIno: u32, nonce: seq<Byte>, key: nat)

  ghost predicate ValidInfo(ci: CryptInfo)
  {
    NONCE_OFFSET <= ci.ivsize <= FSCRYPT_MAX_IV_SIZE && |ci.nonce| == FSCRYPT_FILE_NONCE_SIZE
  }

  /** `flags & bit` is non-zero, for a single-bit mask. */
  predicate HasFlag(flags: Byte, bit: nat)
    requires bit > 0
  {
    (flags / bit) % 2 == 1
  }

  /** The IV method a policy selects; the flags are tested in this order. */
  datatype IvMode = InoLblk64 | InoLblk32 | DirectKey | Plain

  function Mode(flags: Byte): IvMode
  {
    if HasFlag(flags, FSCRYPT_POLICY_FLAG_IV_INO_LBLK_64) then InoLblk64
    else if HasFlag(flags, FSCRYPT_POLICY_FLAG_IV_INO_LBLK_32) then InoLblk32
    else if HasFlag(flags, FSCRYPT_POLICY_FLAG_DIRECT_KEY) then DirectKey
    else Plain
  }

  /** The `n` little-endian bytes of `x` (its value modulo 256^n). */
  function LeBytes(x: nat, n: nat): (b: seq<Byte>)
    ensures |b| == n
  {
    if n == 0 then [] else [x % 256] + LeBytes(x / 256, n - 1)
  }

  /** The value of little-endian bytes. */
  function FromLe(b: seq<Byte>): nat
  {
    if b == [] then 0 else b[0] + 256 * FromLe(b[1..])
  }

  /** `cpu_to_le64`. */
  function Le64(x: u64): (b: seq<Byte>)
    ensures |b| == 8
  {
    LeBytes(x, 8)
  }

  /** Decoding little-endian bytes gives back any value that fits: the encoding loses nothing. */
  lemma {:induction false} LeRoundTrip(x: nat, n: nat)
    requires x < Pow2(8 * n)
    ensures FromLe(LeBytes(x, n)) == x
  {
    if n > 0 {
      var rest := Pow2(8 * (n - 1));
      assert x < 256 * rest by {
        Pow2Byte();
        Pow2Add(8, 8 * (n - 1));
        assert 8 * n == 8 + 8 * (n - 1);
      }
      DivBelow(x, 256, rest);
      LeRoundTrip(x / 256, n - 1);
      var b := LeBytes(x, n);
      assert b[1..] == LeBytes(x / 256, n - 1);
      assert FromLe(b) == x % 256 + 256 * (x / 256);
    }
  }

  /** `(u64)ino << 32`, the shift by the fixed width written as a product. */
  function InoHigh(ino: u64): u64
  {
    Wrap64(ino * TWO_TO_THE_32)
  }

  /** `InoHigh` is the general 64-bit left shift by 32. */
  lemma InoHighIsShift(ino: u64)
    ensures InoHigh(ino) == Shl64(ino, 32)
  {
    Pow2Word();
  }

  /** The value stored in `iv->lblk_num` for block `lblk` of inode `ino`. */
  function LblkField(lblk: u64, ci: CryptInfo, ino: u64): u64
  {
    match Mode(ci.policyFlags)
    case InoLblk64 => Or64(lblk, InoHigh(ino))
    case InoLblk32 => ((ci.hashedIno + lblk) % TWO_TO_THE_64) % TWO_TO_THE_32
    case _ => lblk
  }

  /**
   * `fscrypt_generate_iv`, as the `ivsize` bytes the cipher reads: zeroes,
   * the nonce at offset 8 in DIRECT_KEY mode, then the block field in
   * little-endian order over the first eight bytes.
   */
  function GenerateIv(lblk: u64, ci: CryptInfo, ino: u64): (iv: seq<Byte>)
    requires ValidInfo(ci)
    ensures |iv| == ci.ivsize
  {
    var field := Le64(LblkField(lblk, ci, ino));
    seq(ci.ivsize, i requires 0 <= i < ci.ivsize =>
      if i < NONCE_OFFSET then field[i]
      else if Mode(ci.policyFlags) == DirectKey && i < NONCE_OFFSET + FSCRYPT_FILE_NONCE_SIZE then ci.nonce[i - NONCE_OFFSET]
      else 0)
  }

  /**
   * IV layout: the first eight bytes decode to the block field. In DIRECT_KEY
   * mode the bytes after them hold the nonce, as far as `ivsize` reaches, and
   * any bytes past the nonce are zero; in every other mode every byte after
   * the block field is zero.
   */
  lemma IvLayout(lblk: u64, ci: CryptInfo, ino: u64)
    requires ValidInfo(ci)
    ensures var iv := GenerateIv(lblk, ci, ino);
      && FromLe(iv[..NONCE_OFFSET]) == LblkField(lblk, ci, ino)
      && (Mode(ci.policyFlags) == DirectKey && ci.ivsize >= NONCE_OFFSET + FSCRYPT_FILE_NONCE_SIZE ==>
            iv[NONCE_OFFSET..NONCE_OFFSET + FSCRYPT_FILE_NONCE_SIZE] == ci.nonce)
      && (Mode(ci.policyFlags) == DirectKey ==> forall i :: NONCE_OFFSET <= i < ci.ivsize ==>
            iv[i] == if i < NONCE_OFFSET + FSCRYPT_FILE_NONCE_SIZE then ci.nonce[i - NONCE_OFFSET] else 0)
      && (Mode(ci.policyFlags) != DirectKey ==> forall i :: NONCE_OFFSET <= i < ci.ivsize ==> iv[i] == 0)
  {
    var iv := GenerateIv(lblk, ci, ino);
    assert iv[..NONCE_OFFSET] == Le64(LblkField(lblk, ci, ino));
    Pow2Double();
    LeRoundTrip(LblkField(lblk, ci, ino), 8);
  }

  /**
   * INO_LBLK_64 puts the block number in the low 32 bits and the inode
   * number in the high 32 bits when both fit (the WARN_ON_ONCE conditions).
   */
  lemma InoLblk64Field(lblk: u64, ci: CryptInfo, ino: u64)
    requires Mode(ci.policyFlags) == InoLblk64 && lblk <= U32_MAX && ino <= U32_MAX
    ensures LblkField(lblk, ci, ino) % TWO_TO_THE_32 == lblk
    ensures LblkField(lblk, ci, ino) / TWO_TO_THE_32 == ino
  {
    Or64Halves(lblk, ino);
    assert InoHigh(ino) == ino * TWO_TO_THE_32;
    assert LblkField(lblk, ci, ino) == lblk + ino * TWO_TO_THE_32;
    DivOfSum(LblkField(lblk, ci, ino), TWO_TO_THE_32, ino, lblk);
  }

  /**
   * INO_LBLK_32 keeps a 32-bit value congruent, modulo 2^32, to the hashed
   * inode number plus the block number.
   */
  lemma InoLblk32Field(lblk: u64, ci: CryptInfo, ino: u64)
    requires Mode(ci.policyFlags) == InoLblk32
    ensures LblkField(lblk, ci, ino) <= U32_MAX
    ensures (ci.hashedIno + lblk - LblkField(lblk, ci, ino)) % TWO_TO_THE_32 == 0
  {
    var x := ci.hashedIno + lblk;
    var r := x % TWO_TO_THE_64;
    assert x == TWO_TO_THE_64 * (x / TWO_TO_THE_64) + r;
    assert r == TWO_TO_THE_32 * (r / TWO_TO_THE_32) + r % TWO_TO_THE_32;
    DivOfSum(x - r % TWO_TO_THE_32, TWO_TO_THE_32, TWO_TO_THE_32 * (x / TWO_TO_THE_64) + r / TWO_TO_THE_32, 0);
  }

  /** Within the WARN_ON_ONCE bounds, INO_LBLK_64 gives each (inode, block) pair its own IV. */
  lemma InoLblk64Unique(l1: u64, i1: u64, l2: u64, i2: u64, ci: CryptInfo)
    requires ValidInfo(ci) && Mode(ci.policyFlags) == InoLblk64
    requires l1 <= U32_MAX && i1 <= U32_MAX && l2 <= U32_MAX && i2 <= U32_MAX
    ensures GenerateIv(l1, ci, i1) == GenerateIv(l2, ci, i2) <==> l1 == l2 && i1 == i2
  {
    if GenerateIv(l1, ci, i1) == GenerateIv(l2, ci, i2) {
      IvLayout(l1, ci, i1);
      IvLayout(l2, ci, i2);
      InoLblk64Field(l1, ci, i1);
      InoLblk64Field(l2, ci, i2);
    }
  }

  /**
   * Outside those bounds the OR overlaps: block `lblk + 2^32` of inode 0 and
   * block `lblk` of inode 1 share an IV.
   */
  lemma InoLblk64Overlap(lblk: u64, ci: CryptInfo)
    requires ValidInfo(ci) && Mode(ci.policyFlags) == InoLblk64 && lblk <= U32_MAX
    ensures GenerateIv(lblk + TWO_TO_THE_32, ci, 0) == GenerateIv(lblk, ci, 1)
  {
    assert InoHigh(0) == 0;
    Or64Zero(lblk + TWO_TO_THE_32);
    Or64Halves(lblk, 1);
    SameFieldSameIv(lblk + TWO_TO_THE_32, 0, lblk, 1, ci);
  }

  /** The IV depends on the block and the inode only through the block field. */
  lemma SameFieldSameIv(l1: u64, i1: u64, l2: u64, i2: u64, ci: CryptInfo)
    requires ValidInfo(ci) && LblkField(l1, ci, i1) == LblkField(l2, ci, i2)
    ensures GenerateIv(l1, ci, i1) == GenerateIv(l2, ci, i2)
  {
  }

  /** The block field alone already tells the blocks of one file apart (in the INO_LBLK modes, within 32 bits). */
  lemma FieldDistinguishesBlocks(l1: u64, l2: u64, ci: CryptInfo, ino: u64)
    requires Mode(ci.policyFlags) == InoLblk64 || Mode(ci.policyFlags) == InoLblk32 ==> l1 <= U32_MAX && l2 <= U32_MAX
    requires Mode(ci.policyFlags) == InoLblk64 ==> ino <= U32_MAX
    requires LblkField(l1, ci, ino) == LblkField(l2, ci, ino)
    ensures l1 == l2
  {
    match Mode(ci.policyFlags)
    case InoLblk64 =>
      InoLblk64Field(l1, ci, ino);
      InoLblk64Field(l2, ci, ino);
    case InoLblk32 =>
      InoLblk32Field(l1, ci, ino);
      InoLblk32Field(l2, ci, ino);
      var f := LblkField(l1, ci, ino);
      var q1, q2 := (ci.hashedIno + l1 - f) / TWO_TO_THE_32, (ci.hashedIno + l2 - f) / TWO_TO_THE_32;
      assert ci.hashedIno + l1 - f == TWO_TO_THE_32 * q1;
      assert ci.hashedIno + l2 - f == TWO_TO_THE_32 * q2;
      assert l1 - l2 == TWO_TO_THE_32 * (q1 - q2);
    case _ =>
  }

  /**
   * Every mode gives the blocks of one file distinct IVs: always for the
   * default and DIRECT_KEY modes, and for block numbers within 32 bits in
   * the INO_LBLK modes.
   */
  lemma IvDistinguishesBlocks(l1: u64, l2: u64, ci: CryptInfo, ino: u64)
    requires ValidInfo(ci)
    requires Mode(ci.policyFlags) == InoLblk64 || Mode(ci.policyFlags) == InoLblk32 ==> l1 <= U32_MAX && l2 <= U32_MAX
    requires Mode(ci.policyFlags) == InoLblk64 ==> ino <= U32_MAX
    ensures GenerateIv(l1, ci, ino) == GenerateIv(l2, ci, ino) <==> l1 == l2
  {
    if GenerateIv(l1, ci, ino) == GenerateIv(l2, ci, ino) {
      IvLayout(l1, ci, ino);
      IvLayout(l2, ci, ino);
      FieldDistinguishesBlocks(l1, l2, ci, ino);
    }
  }
}
