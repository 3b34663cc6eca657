/**
 * The ciphertext index `cryptArray` of crypto.c: a global table of
 * DEDUP_TABLE_SIZE slots, each NULL or pointing at a `struct Cryptitem`
 * (a 16-byte ciphertext fingerprint and the owning inode number), addressed
 * by open addressing with linear probing, and persisted as a flat file of
 * records in slot order.
 */
module CryptTable {
  import opened Wrappers
  import opened KernelTypes

  /** DEDUP_TABLE_SIZE, 1024*1024. */
  const DEDUP_TABLE_SIZE: nat := 0x10_0000

  /** `struct Cryptitem`: a ciphertext fingerprint and its owner's inode number. */
  datatype Cryptitem = Cryptitem(fingerprint: Fingerprint, ino: u64)

  /** One `cryptArray` slot: a NULL pointer or a pointer to an item. */
  datatype Slot = Null | Present(item: Cryptitem)

  /** The slot visited by the `k`-th probe from bucket `h`, with wraparound. */
  function Probe(h: nat, k: nat): (i: nat)
    ensures i < DEDUP_TABLE_SIZE
  {
    (h + k) % DEDUP_TABLE_SIZE
  }

  /** One more probe moves to the next slot, wrapping at the end of the table. */
  lemma ProbeNext(h: nat, k: nat)
    ensures Probe(h, k + 1) == (Probe(h, k) + 1) % DEDUP_TABLE_SIZE
  {
  }

  /** Every slot is visited by exactly one of the first DEDUP_TABLE_SIZE probes. */
  lemma ProbeCovers(h: nat, i: nat)
    requires h < DEDUP_TABLE_SIZE && i < DEDUP_TABLE_SIZE
    ensures var k := (i - h) % DEDUP_TABLE_SIZE; k < DEDUP_TABLE_SIZE && Probe(h, k) == i
  {
    if i < h {
      assert (i - h) % DEDUP_TABLE_SIZE == i - h + DEDUP_TABLE_SIZE;
    }
  }

  // ---------------------------------------------------------------------
  // hashCrypt

  /** The sum of the bytes of `f`, each read as a signed `char`. */
  function SignedSum(f: seq<Byte>): int
  {
    if f == [] then 0 else SignedSum(f[..|f| - 1]) + SignedChar(f[|f| - 1])
  }

  /**
   * The bucket of a fingerprint: the sum of its sixteen bytes, taken as
   * `char` values, reduced modulo the table size.
   */
  function Bucket(f: Fingerprint): (h: nat)
    ensures h < DEDUP_TABLE_SIZE
  {
    SignedSum(f) % DEDUP_TABLE_SIZE
  }

  /** Adding in a wrapping `size_t` agrees with reducing the exact sum. */
  lemma WrapAdd(a: int, b: int)
    ensures (a % TWO_TO_THE_64 + b % TWO_TO_THE_64) % TWO_TO_THE_64 == (a + b) % TWO_TO_THE_64
  {
  }

  /** Reducing modulo 2^64 first does not change the residue modulo the table size. */
  lemma WrapThenBucket(x: int)
    ensures (x % TWO_TO_THE_64) % DEDUP_TABLE_SIZE == x % DEDUP_TABLE_SIZE
  {
  }

  /**
   * `hashCrypt`: accumulates the sixteen bytes, each cast from `char` to
   * `size_t`, in a wrapping `size_t`, then reduces modulo the table size.
   * The result is always a valid slot index and is exactly the bucket.
   */
  method HashCrypt(finger: Fingerprint) returns (hash: nat)
    ensures hash < DEDUP_TABLE_SIZE
    ensures hash == Bucket(finger)
  {
    hash := 0;
    for i := 0 to FINGERPRINT_SIZE
      invariant hash == SignedSum(finger[..i]) % TWO_TO_THE_64
    {
      assert finger[..i + 1][..i] == finger[..i];
      WrapAdd(SignedSum(finger[..i]), SignedChar(finger[i]));
      hash := (hash + SignedChar(finger[i]) % TWO_TO_THE_64) % TWO_TO_THE_64;
    }
    assert finger[..FINGERPRINT_SIZE] == finger;
    WrapThenBucket(SignedSum(finger));
    hash := hash % DEDUP_TABLE_SIZE;
  }

  // ---------------------------------------------------------------------
  // crypt_search

  /** The slot of `s` holds an item whose fingerprint `strncmp`-matches `f`. */
  predicate Matches(s: seq<Slot>, i: nat, f: Fingerprint)
    requires i < |s|
  {
    s[i].Present? && StrnCmp(s[i].item.fingerprint, f) == 0
  }

  /**
   * `crypt_search` from its `k`-th probe on: stop with NULL at a NULL slot,
   * return a matching slot, and give up once the probe count exceeds the
   * table size.
   */
  function SearchFrom(s: seq<Slot>, f: Fingerprint, h: nat, k: nat): (r: Option<nat>)
    requires |s| == DEDUP_TABLE_SIZE && k <= DEDUP_TABLE_SIZE
    ensures r.Some? ==> r.value < DEDUP_TABLE_SIZE
    decreases |s| - k
  {
    var i := Probe(h, k);
    if s[i].Null? then None
    else if StrnCmp(s[i].item.fingerprint, f) == 0 then Some(i)
    else if k + 1 > DEDUP_TABLE_SIZE then None
    else SearchFrom(s, f, h, k + 1)
  }

  /** One probe of `crypt_search` on a non-NULL slot: a match ends the search, otherwise it moves on or gives up. */
  lemma SearchFromStep(s: seq<Slot>, f: Fingerprint, h: nat, k: nat)
    requires |s| == DEDUP_TABLE_SIZE && k <= DEDUP_TABLE_SIZE && s[Probe(h, k)].Present?
    ensures StrnCmp(s[Probe(h, k)].item.fingerprint, f) == 0 ==> SearchFrom(s, f, h, k) == Some(Probe(h, k))
    ensures StrnCmp(s[Probe(h, k)].item.fingerprint, f) != 0 && k == DEDUP_TABLE_SIZE ==> SearchFrom(s, f, h, k).None?
    ensures StrnCmp(s[Probe(h, k)].item.fingerprint, f) != 0 && k < DEDUP_TABLE_SIZE ==>
      SearchFrom(s, f, h, k) == SearchFrom(s, f, h, k + 1) && Probe(h, k + 1) == (Probe(h, k) + 1) % DEDUP_TABLE_SIZE
  {
  }

  /** The slot `crypt_search(f)` returns on table `s`, or None for NULL. */
  function SearchSpec(s: seq<Slot>, f: Fingerprint): Option<nat>
    requires |s| == DEDUP_TABLE_SIZE
  {
    SearchFrom(s, f, Bucket(f), 0)
  }

  /** Probes `k0` up to (excluding) `k` all hit a non-NULL, non-matching slot. */
  ghost predicate PassedOver(s: seq<Slot>, f: Fingerprint, h: nat, k0: nat, k: nat)
    requires |s| == DEDUP_TABLE_SIZE
  {
    forall j :: k0 <= j < k ==> s[Probe(h, j)].Present? && !Matches(s, Probe(h, j), f)
  }

  /** A slot `crypt_search` returns was reached by probing past non-matching items only, and matches. */
  lemma {:induction false} SearchFromSound(s: seq<Slot>, f: Fingerprint, h: nat, k0: nat)
    requires |s| == DEDUP_TABLE_SIZE && k0 <= DEDUP_TABLE_SIZE
    requires SearchFrom(s, f, h, k0).Some?
    ensures exists k ::
              && k0 <= k <= DEDUP_TABLE_SIZE && SearchFrom(s, f, h, k0) == Some(Probe(h, k))
              && PassedOver(s, f, h, k0, k) && Matches(s, Probe(h, k), f)
    decreases DEDUP_TABLE_SIZE - k0
  {
    var p := Probe(h, k0);
    if Matches(s, p, f) {
      assert PassedOver(s, f, h, k0, k0);
    } else {
      SearchFromSound(s, f, h, k0 + 1);
      var k :| k0 + 1 <= k <= DEDUP_TABLE_SIZE && SearchFrom(s, f, h, k0 + 1) == Some(Probe(h, k))
        && PassedOver(s, f, h, k0 + 1, k) && Matches(s, Probe(h, k), f);
      assert PassedOver(s, f, h, k0, k);
    }
  }

  /** Probing past non-matching items to a matching one makes `crypt_search` return it. */
  lemma {:induction false} SearchFromComplete(s: seq<Slot>, f: Fingerprint, h: nat, k0: nat, k: nat)
    requires |s| == DEDUP_TABLE_SIZE && k0 <= k <= DEDUP_TABLE_SIZE
    requires PassedOver(s, f, h, k0, k) && Matches(s, Probe(h, k), f)
    ensures SearchFrom(s, f, h, k0) == Some(Probe(h, k))
    decreases k - k0
  {
    if k0 < k {
      assert s[Probe(h, k0)].Present? && !Matches(s, Probe(h, k0), f);
      SearchFromComplete(s, f, h, k0 + 1, k);
    }
  }

  /** Without NULL slots, a NULL answer means every probe from `k0` on missed. */
  lemma {:induction false} SearchFromMissed(s: seq<Slot>, f: Fingerprint, h: nat, k0: nat, k: nat)
    requires |s| == DEDUP_TABLE_SIZE && k0 <= k <= DEDUP_TABLE_SIZE
    requires SearchFrom(s, f, h, k0).None?
    requires forall j :: k0 <= j <= k ==> s[Probe(h, j)].Present?
    ensures !Matches(s, Probe(h, k), f)
    decreases k - k0
  {
    if k0 < k {
      assert s[Probe(h, k0)].Present?;
      SearchFromMissed(s, f, h, k0 + 1, k);
    }
  }

  /**
   * Lookup correctness: `crypt_search` returns slot `i` exactly when `i`
   * holds an item matching `f` under `strncmp` and every earlier probe from
   * the bucket passed over a non-NULL, non-matching item.
   */
  lemma SearchCorrect(s: seq<Slot>, f: Fingerprint, i: nat)
    requires |s| == DEDUP_TABLE_SIZE
    ensures SearchSpec(s, f) == Some(i) <==>
      exists k :: 0 <= k <= DEDUP_TABLE_SIZE && i == Probe(Bucket(f), k) && PassedOver(s, f, Bucket(f), 0, k) && Matches(s, i, f)
  {
    if SearchSpec(s, f).Some? {
      SearchFromSound(s, f, Bucket(f), 0);
    }
    forall k | 0 <= k <= DEDUP_TABLE_SIZE && i == Probe(Bucket(f), k) && PassedOver(s, f, Bucket(f), 0, k) && Matches(s, i, f)
      ensures SearchSpec(s, f) == Some(i)
    {
      SearchFromComplete(s, f, Bucket(f), 0, k);
    }
  }

  /** No slot of the table is NULL. */
  predicate NoNull(s: seq<Slot>)
  {
    forall i :: 0 <= i < |s| ==> s[i].Present?
  }

  /**
   * On a table without NULL slots (every table after a reload) the NULL
   * terminator never fires: `crypt_search` answers NULL exactly when no
   * slot anywhere matches.
   */
  lemma SearchWithoutNull(s: seq<Slot>, f: Fingerprint)
    requires |s| == DEDUP_TABLE_SIZE && NoNull(s)
    ensures SearchSpec(s, f).None? <==> forall i :: 0 <= i < DEDUP_TABLE_SIZE ==> !Matches(s, i, f)
  {
    var h := Bucket(f);
    if SearchSpec(s, f).Some? {
      SearchFromSound(s, f, h, 0);
    } else {
      forall i | 0 <= i < DEDUP_TABLE_SIZE ensures !Matches(s, i, f) {
        ProbeCovers(h, i);
        SearchFromMissed(s, f, h, 0, (i - h) % DEDUP_TABLE_SIZE);
      }
    }
  }

  // ---------------------------------------------------------------------
  // crypttable_insert

  /** `crypttable_insert` may reuse a slot that is NULL or whose item has `ino == 0`. */
  predicate Writable(s: seq<Slot>, i: nat)
    requires i < |s|
  {
    s[i].Null? || s[i].item.ino == 0
  }

  /** The insert probe from its `k`-th step on, giving up past the table size. */
  function FreeFrom(s: seq<Slot>, h: nat, k: nat): (r: Option<nat>)
    requires |s| == DEDUP_TABLE_SIZE && k <= DEDUP_TABLE_SIZE
    ensures r.Some? ==> r.value < DEDUP_TABLE_SIZE
    decreases |s| - k
  {
    var i := Probe(h, k);
    if Writable(s, i) then Some(i)
    else if k + 1 > DEDUP_TABLE_SIZE then None
    else FreeFrom(s, h, k + 1)
  }

  /** The slot `crypttable_insert(f, _)` writes, or None when it returns 1. */
  function FreeSlot(s: seq<Slot>, f: Fingerprint): Option<nat>
    requires |s| == DEDUP_TABLE_SIZE
  {
    FreeFrom(s, Bucket(f), 0)
  }

  /** The item `crypttable_insert` allocates: a `strncpy` copy of the fingerprint and the owner. */
  function NewItem(f: Fingerprint, ino: u64): Slot
  {
    Present(Cryptitem(StrnCpy(f), ino))
  }

  /** The table after `crypttable_insert(f, ino)`, or None when it returns 1 and writes nothing. */
  function Inserted(s: seq<Slot>, f: Fingerprint, ino: u64): Option<seq<Slot>>
    requires |s| == DEDUP_TABLE_SIZE
  {
    match FreeSlot(s, f)
    case None => None
    case Some(i) => Some(s[i := NewItem(f, ino)])
  }

  /** Probes `k0` up to (excluding) `k` all hit a live item (non-NULL, `ino > 0`). */
  ghost predicate AllLive(s: seq<Slot>, h: nat, k0: nat, k: nat)
    requires |s| == DEDUP_TABLE_SIZE
  {
    forall j :: k0 <= j < k ==> !Writable(s, Probe(h, j))
  }

  lemma {:induction false} FreeFromSound(s: seq<Slot>, h: nat, k0: nat)
    requires |s| == DEDUP_TABLE_SIZE && k0 <= DEDUP_TABLE_SIZE
    requires FreeFrom(s, h, k0).Some?
    ensures exists k ::
              && k0 <= k <= DEDUP_TABLE_SIZE && FreeFrom(s, h, k0) == Some(Probe(h, k))
              && AllLive(s, h, k0, k) && Writable(s, Probe(h, k))
    decreases DEDUP_TABLE_SIZE - k0
  {
    if Writable(s, Probe(h, k0)) {
      assert AllLive(s, h, k0, k0);
    } else {
      FreeFromSound(s, h, k0 + 1);
      var k :| k0 + 1 <= k <= DEDUP_TABLE_SIZE && FreeFrom(s, h, k0 + 1) == Some(Probe(h, k))
        && AllLive(s, h, k0 + 1, k) && Writable(s, Probe(h, k));
      assert AllLive(s, h, k0, k);
    }
  }

  lemma {:induction false} FreeFromComplete(s: seq<Slot>, h: nat, k0: nat, k: nat)
    requires |s| == DEDUP_TABLE_SIZE && k0 <= k <= DEDUP_TABLE_SIZE
    requires AllLive(s, h, k0, k) && Writable(s, Probe(h, k))
    ensures FreeFrom(s, h, k0) == Some(Probe(h, k))
    decreases k - k0
  {
    if k0 < k {
      assert !Writable(s, Probe(h, k0));
      FreeFromComplete(s, h, k0 + 1, k);
    }
  }

  lemma {:induction false} FreeFromMissed(s: seq<Slot>, h: nat, k0: nat, k: nat)
    requires |s| == DEDUP_TABLE_SIZE && k0 <= k <= DEDUP_TABLE_SIZE
    requires FreeFrom(s, h, k0).None?
    ensures !Writable(s, Probe(h, k))
    decreases k - k0
  {
    if k0 < k {
      FreeFromMissed(s, h, k0 + 1, k);
    }
  }

  /**
   * Insert placement: the slot `crypttable_insert` writes is the first slot
   * at or after the bucket, with wraparound, that is NULL or has `ino == 0`.
   */
  lemma InsertPlacement(s: seq<Slot>, f: Fingerprint, i: nat)
    requires |s| == DEDUP_TABLE_SIZE
    ensures FreeSlot(s, f) == Some(i) <==>
      exists k :: 0 <= k <= DEDUP_TABLE_SIZE && i == Probe(Bucket(f), k) && AllLive(s, Bucket(f), 0, k) && Writable(s, i)
  {
    if FreeSlot(s, f).Some? {
      FreeFromSound(s, Bucket(f), 0);
    }
    forall k | 0 <= k <= DEDUP_TABLE_SIZE && i == Probe(Bucket(f), k) && AllLive(s, Bucket(f), 0, k) && Writable(s, i)
      ensures FreeSlot(s, f) == Some(i)
    {
      FreeFromComplete(s, Bucket(f), 0, k);
    }
  }

  /**
   * Insert on a full table: `crypttable_insert` finds no slot (returns 1)
   * exactly when every slot holds a live item with `ino > 0`.
   */
  lemma InsertFull(s: seq<Slot>, f: Fingerprint)
    requires |s| == DEDUP_TABLE_SIZE
    ensures FreeSlot(s, f).None? <==> forall i :: 0 <= i < DEDUP_TABLE_SIZE ==> !Writable(s, i)
  {
    var h := Bucket(f);
    if FreeSlot(s, f).Some? {
      FreeFromSound(s, h, 0);
    } else {
      forall i | 0 <= i < DEDUP_TABLE_SIZE ensures !Writable(s, i) {
        ProbeCovers(h, i);
        FreeFromMissed(s, h, 0, (i - h) % DEDUP_TABLE_SIZE);
      }
    }
  }

  /**
   * A fingerprint `crypt_search` did not find, once inserted, is found by
   * the next search, in exactly the slot the insert wrote, with the new owner.
   */
  lemma SearchAfterInsert(s: seq<Slot>, f: Fingerprint, ino: u64)
    requires |s| == DEDUP_TABLE_SIZE
    requires SearchSpec(s, f).None? && FreeSlot(s, f).Some?
    ensures var i := FreeSlot(s, f).value;
      SearchSpec(s[i := NewItem(f, ino)], f) == Some(i)
  {
    var h := Bucket(f);
    var i := FreeSlot(s, f).value;
    var t := s[i := NewItem(f, ino)];
    FreeFromSound(s, h, 0);
    var k :| 0 <= k <= DEDUP_TABLE_SIZE && Some(i) == Some(Probe(h, k)) && AllLive(s, h, 0, k) && Writable(s, Probe(h, k));
    forall j | 0 <= j < k ensures t[Probe(h, j)].Present? && !Matches(t, Probe(h, j), f) {
      assert !Writable(s, Probe(h, j));
      assert t[Probe(h, j)] == s[Probe(h, j)];
      forall j' | 0 <= j' <= j ensures s[Probe(h, j')].Present? {
        assert !Writable(s, Probe(h, j'));
      }
      SearchFromMissed(s, f, h, 0, j);
    }
    StrnCpyMatchesSource(f);
    SearchFromComplete(t, f, h, 0, k);
  }

  // ---------------------------------------------------------------------
  // Registration in fscrypt_crypt_block: insert only when the search misses.

  /** `if (!crypt_search(d)) crypttable_insert(d, ino);` with the return value of the insert ignored. */
  function Register(s: seq<Slot>, f: Fingerprint, ino: u64): (t: seq<Slot>)
    requires |s| == DEDUP_TABLE_SIZE
    ensures |t| == DEDUP_TABLE_SIZE
    ensures NoNull(s) ==> NoNull(t)
  {
    if SearchSpec(s, f).Some? then s
    else match Inserted(s, f, ino)
      case None => s
      case Some(t) => t
  }

  /**
   * No overwrite: registration leaves the table unchanged or fills exactly
   * one slot that was NULL or had `ino == 0`; every live item survives, and
   * an already indexed fingerprint changes nothing.
   */
  lemma RegisterNoOverwrite(s: seq<Slot>, f: Fingerprint, ino: u64)
    requires |s| == DEDUP_TABLE_SIZE
    ensures var t := Register(s, f, ino);
      && |t| == DEDUP_TABLE_SIZE
      && (SearchSpec(s, f).Some? ==> t == s)
      && (t == s || exists i :: 0 <= i < DEDUP_TABLE_SIZE && Writable(s, i) && t == s[i := NewItem(f, ino)])
      && (forall i :: 0 <= i < DEDUP_TABLE_SIZE && !Writable(s, i) ==> t[i] == s[i])
  {
    if SearchSpec(s, f).None? && FreeSlot(s, f).Some? {
      var i := FreeSlot(s, f).value;
      InsertPlacement(s, f, i);
    }
  }

  /**
   * After registration the fingerprint is indexed, unless the table was
   * full; when it was new, the index now maps it to the registering owner.
   */
  lemma RegisterThenSearch(s: seq<Slot>, f: Fingerprint, ino: u64)
    requires |s| == DEDUP_TABLE_SIZE
    ensures var t := Register(s, f, ino);
      && (SearchSpec(t, f).None? <==> SearchSpec(s, f).None? && FreeSlot(s, f).None?)
      && (SearchSpec(s, f).None? && FreeSlot(s, f).Some? ==>
            SearchSpec(t, f) == FreeSlot(s, f) && t[FreeSlot(s, f).value] == NewItem(f, ino))
  {
    var t := Register(s, f, ino);
    if SearchSpec(s, f).Some? {
      assert t == s;
    } else if FreeSlot(s, f).None? {
      assert t == s;
    } else {
      var i := FreeSlot(s, f).value;
      assert t == s[i := NewItem(f, ino)];
      SearchAfterInsert(s, f, ino);
      assert SearchSpec(t, f) == Some(i);
    }
  }

  /** Registering the same fingerprint again, for any owner, changes nothing. */
  lemma RegisterIdempotent(s: seq<Slot>, f: Fingerprint, a: u64, b: u64)
    requires |s| == DEDUP_TABLE_SIZE
    ensures Register(Register(s, f, a), f, b) == Register(s, f, a)
  {
    if SearchSpec(s, f).None? && FreeSlot(s, f).Some? {
      SearchAfterInsert(s, f, a);
    }
  }

  /**
   * Registration never hides an indexed fingerprint: a lookup that found a
   * live item (`ino > 0`) still finds the same slot after any other digest is
   * registered. An item with `ino == 0` gets no such guarantee, because the
   * insert may reuse its slot.
   */
  lemma RegisterKeepsFound(s: seq<Slot>, f: Fingerprint, g: Fingerprint, ino: u64, i: nat)
    requires |s| == DEDUP_TABLE_SIZE && NoNull(s) && SearchSpec(s, f) == Some(i) && s[i].item.ino > 0
    ensures SearchSpec(Register(s, g, ino), f) == Some(i)
  {
    var t := Register(s, g, ino);
    if t != s {
      RegisterNoOverwrite(s, g, ino);
      var j :| 0 <= j < DEDUP_TABLE_SIZE && Writable(s, j) && t == s[j := NewItem(g, ino)];
      SearchCorrect(s, f, i);
      var k :| 0 <= k <= DEDUP_TABLE_SIZE && i == Probe(Bucket(f), k)
        && PassedOver(s, f, Bucket(f), 0, k) && Matches(s, i, f);
      assert !Matches(t, j, f) by {
        if StrnCmp(StrnCpy(g), f) == 0 {
          var e := s[i].item.fingerprint;
          StrnCpyMatchesSource(g);
          StrnCmpAntisymmetric(StrnCpy(g), f);
          StrnCmpTransitive(e, f, StrnCpy(g));
          StrnCmpTransitive(e, StrnCpy(g), g);
          assert Matches(s, i, g);
          SearchWithoutNull(s, g);
          assert false;
        }
      }
      assert PassedOver(t, f, Bucket(f), 0, k);
      SearchCorrect(t, f, i);
    }
  }

  // ---------------------------------------------------------------------
  // Persistence: the reload and flush loops over "/citable".

  /** The first loop of a reload: every NULL slot gets a fresh item with `ino = 0` and an uninitialised fingerprint `junk(i)`. */
  function Placeholders(s: seq<Slot>, junk: nat -> Fingerprint): (t: seq<Slot>)
    ensures |t| == |s| && NoNull(t)
  {
    seq(|s|, i requires 0 <= i < |s| => if s[i].Null? then Present(Cryptitem(junk(i), 0)) else s[i])
  }

  /**
   * The table after both reload loops: slot `i` takes record `i` of the file
   * when the file has one, and otherwise keeps its placeholder.
   */
  function Reloaded(s: seq<Slot>, file: seq<Cryptitem>, junk: nat -> Fingerprint): (t: seq<Slot>)
    requires |s| == DEDUP_TABLE_SIZE
    ensures |t| == DEDUP_TABLE_SIZE && NoNull(t)
  {
    var p := Placeholders(s, junk);
    seq(DEDUP_TABLE_SIZE, i requires 0 <= i < DEDUP_TABLE_SIZE => if i < |file| then Present(file[i]) else p[i])
  }

  /** The records of a table without NULL slots. */
  function Items(s: seq<Slot>): (r: seq<Cryptitem>)
    requires NoNull(s)
    ensures |r| == |s|
  {
    seq(|s|, i requires 0 <= i < |s| => s[i].item)
  }

  /** The file after writing `prefix` from offset 0: the written records, then whatever followed them. */
  function Overwrite(prefix: seq<Cryptitem>, file: seq<Cryptitem>): seq<Cryptitem>
  {
    prefix + (if |prefix| < |file| then file[|prefix|..] else [])
  }

  /**
   * One turn of the flush loop: writing the next record at offset `|prefix|`
   * replaces the record there, or appends it at the end of the file.
   */
  lemma OverwriteStep(prefix: seq<Cryptitem>, x: Cryptitem, file: seq<Cryptitem>)
    ensures var w := Overwrite(prefix, file);
      Overwrite(prefix + [x], file) == if |prefix| < |w| then w[|prefix| := x] else w + [x]
  {
  }

  /** The file after the flush loop writes every slot in order. */
  function Flushed(s: seq<Slot>, file: seq<Cryptitem>): seq<Cryptitem>
    requires NoNull(s)
  {
    Overwrite(Items(s), file)
  }

  /**
   * Persistence round trip: reloading from the file a flush just wrote
   * restores exactly the flushed table, whatever was in memory before and
   * whatever the placeholders held.
   */
  lemma ReloadAfterFlush(s: seq<Slot>, file: seq<Cryptitem>, before: seq<Slot>, junk: nat -> Fingerprint)
    requires |s| == DEDUP_TABLE_SIZE && NoNull(s) && |before| == DEDUP_TABLE_SIZE
    ensures Reloaded(before, Flushed(s, file), junk) == s
  {
    var t := Reloaded(before, Flushed(s, file), junk);
    forall i | 0 <= i < DEDUP_TABLE_SIZE ensures t[i] == s[i] {
      assert Flushed(s, file)[i] == Items(s)[i];
    }
  }

  /**
   * A reload from a file holding a record for every slot depends on the file
   * alone: neither the previous table nor the placeholders' contents matter.
   */
  lemma ReloadFromFullFile(s: seq<Slot>, s': seq<Slot>, file: seq<Cryptitem>, junk: nat -> Fingerprint, junk': nat -> Fingerprint)
    requires |s| == DEDUP_TABLE_SIZE && |s'| == DEDUP_TABLE_SIZE && |file| >= DEDUP_TABLE_SIZE
    ensures Reloaded(s, file, junk) == Reloaded(s', file, junk')
    ensures Items(Reloaded(s, file, junk)) == file[..DEDUP_TABLE_SIZE]
  {
  }

  /** Flushing never shortens the file and always covers every slot. */
  lemma FlushedLength(s: seq<Slot>, file: seq<Cryptitem>)
    requires NoNull(s)
    ensures |Flushed(s, file)| == if |file| > |s| then |file| else |s|
    ensures Flushed(s, file)[..|s|] == Items(s)
  {
  }

  // ---------------------------------------------------------------------
  // The in-memory table and the persisted file, as updated in place.

  /** The file "/citable": the persisted records in slot order. */
  class IndexFile {
    var records: seq<Cryptitem>

    constructor (records: seq<Cryptitem>)
      ensures this.records == records
    {
      this.records := records;
    }
  }

  /** The global `cryptArray`. */
  class CryptArray {
    const slots: array<Slot>

    ghost predicate Valid()
      reads this
    {
      slots.Length == DEDUP_TABLE_SIZE
    }

    /** The table at module load: every slot NULL. */
    constructor ()
      ensures Valid() && fresh(slots)
      ensures forall i :: 0 <= i < DEDUP_TABLE_SIZE ==> slots[i] == Null
    {
      slots := new Slot[DEDUP_TABLE_SIZE](_ => Null);
    }

    /**
     * `crypt_search`: probes from the bucket with wraparound; returns the
     * first matching slot, or None at a NULL slot or once the probe count
     * exceeds the table size. The table is not modified.
     */
    method Search(finger: Fingerprint) returns (r: Option<nat>)
      requires Valid()
      ensures r == SearchSpec(slots[..], finger)
    {
      ghost var s := slots[..];
      ghost var h := Bucket(finger);
      var hashIndex: nat := HashCrypt(finger);
      var loop := 0;
      while slots[hashIndex] != Null
        invariant 0 <= loop <= DEDUP_TABLE_SIZE && hashIndex == Probe(h, loop)
        invariant SearchFrom(s, finger, h, loop) == SearchSpec(s, finger)
        decreases DEDUP_TABLE_SIZE - loop
      {
        assert s[hashIndex] == slots[hashIndex];
        SearchFromStep(s, finger, h, loop);
        var ret := StrnCmp(slots[hashIndex].item.fingerprint, finger);
        if ret == 0 {
          return Some(hashIndex);
        }
        hashIndex := hashIndex + 1;
        loop := loop + 1;
        if loop > DEDUP_TABLE_SIZE {
          return None;
        }
        hashIndex := hashIndex % DEDUP_TABLE_SIZE;
      }
      return None;
    }

    /**
     * `crypttable_insert`: probes from the bucket with wraparound for the
     * first slot that is NULL or has `ino == 0` and stores a new item there
     * (returns 0); gives up, changing nothing, once the probe count exceeds
     * the table size (returns 1).
     */
    method Insert(finger: Fingerprint, ino: u64) returns (res: int)
      requires Valid()
      modifies slots
      ensures res == 0 || res == 1
      ensures res == 1 <==> FreeSlot(old(slots[..]), finger).None?
      ensures slots[..] == match Inserted(old(slots[..]), finger, ino)
                           case None => old(slots[..])
                           case Some(t) => t
    {
      var item := NewItem(finger, ino);
      var hashIndex := HashCrypt(finger);
      var loop := 0;
      while slots[hashIndex] != Null && slots[hashIndex].item.ino > 0
        invariant 0 <= loop <= DEDUP_TABLE_SIZE && hashIndex == Probe(Bucket(finger), loop)
        invariant slots[..] == old(slots[..])
        invariant FreeFrom(slots[..], Bucket(finger), loop) == FreeSlot(slots[..], finger)
        decreases DEDUP_TABLE_SIZE - loop
      {
        ProbeNext(Bucket(finger), loop);
        hashIndex := hashIndex + 1;
        hashIndex := hashIndex % DEDUP_TABLE_SIZE;
        loop := loop + 1;
        if loop > DEDUP_TABLE_SIZE {
          return 1;
        }
      }
      slots[hashIndex] := item;
      return 0;
    }

    /**
     * The reload at the head of an encrypt (crypto.c:259-267) and of a
     * pagecache decrypt (crypto.c:413-421): fill every NULL slot with an
     * `ino = 0` placeholder, then read the records of "/citable" into the
     * slots in order; slots past the end of the file keep their contents.
     */
    method Reload(file: IndexFile, junk: nat -> Fingerprint)
      requires Valid()
      modifies slots
      ensures slots[..] == Reloaded(old(slots[..]), file.records, junk)
    {
      ghost var before := slots[..];
      var hashIndex := 0;
      while hashIndex < DEDUP_TABLE_SIZE
        invariant 0 <= hashIndex <= DEDUP_TABLE_SIZE
        invariant forall j :: 0 <= j < hashIndex ==> slots[j] == Placeholders(before, junk)[j]
        invariant forall j :: hashIndex <= j < DEDUP_TABLE_SIZE ==> slots[j] == before[j]
      {
        if slots[hashIndex] == Null {
          slots[hashIndex] := Present(Cryptitem(junk(hashIndex), 0));
        }
        hashIndex := hashIndex + 1;
      }
      ghost var filled := slots[..];
      hashIndex := 0;
      while hashIndex < DEDUP_TABLE_SIZE
        invariant 0 <= hashIndex <= DEDUP_TABLE_SIZE
        invariant forall j :: 0 <= j < hashIndex ==> slots[j] == Reloaded(before, file.records, junk)[j]
        invariant forall j :: hashIndex <= j < DEDUP_TABLE_SIZE ==> slots[j] == filled[j]
      {
        if hashIndex < |file.records| {
          slots[hashIndex] := Present(file.records[hashIndex]);
        }
        hashIndex := hashIndex + 1;
      }
    }

    /**
     * The flush after an encrypt (crypto.c:272-274): write every slot's
     * record to "/citable" in order from offset 0. A NULL slot would be
     * dereferenced, so the table must have none (it never does after a reload).
     */
    method Flush(file: IndexFile)
      requires Valid() && NoNull(slots[..])
      modifies file
      ensures file.records == Flushed(slots[..], old(file.records))
    {
      ghost var original := file.records;
      var hashIndex := 0;
      while hashIndex < DEDUP_TABLE_SIZE
        invariant 0 <= hashIndex <= DEDUP_TABLE_SIZE
        invariant file.records == Overwrite(Items(slots[..])[..hashIndex], original)
      {
        var record := slots[hashIndex].item;
        ghost var prefix := Items(slots[..])[..hashIndex];
        assert Items(slots[..])[..hashIndex + 1] == prefix + [record];
        OverwriteStep(prefix, record, original);
        if hashIndex < |file.records| {
          file.records := file.records[hashIndex := record];
        } else {
          file.records := file.records + [record];
        }
        hashIndex := hashIndex + 1;
      }
      assert Items(slots[..])[..DEDUP_TABLE_SIZE] == Items(slots[..]);
    }
  }
}
