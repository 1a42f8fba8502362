/**
 * kernel/src/nvs_manager.cpp: checksummed key-value storage with a backup copy, and the part of
 * the kernel's boot (kernel/src/kernel.cpp) that verifies, restores and backs it up.
 */
module NvsSpec {
  import opened Words
  import opened Crc32Spec

  /** What one key of a namespace holds. */
  datatype Item = Blob(bytes: seq<byte>) | Number(value: u32)

  type Store = map<string, Item>

  datatype Namespace = Missing | Present(entries: Store)

  /** The primary namespace and the backup namespace. */
  datatype Flash = Flash(primary: Namespace, backup: Namespace)

  const MAGIC_KEY: string := "_bak_magic"
  const BACKUP_MAGIC: u32 := 0xBAAC0DE1
  const META: string := "_meta"
  const META_SIZE: nat := 40
  const MAX_DATA: nat := 0xFFFF

  // ---------------------------------------------------------------- metadata

  datatype Metadata = Metadata(version: u16, dataSize: u16, crc32: u32)

  function MetaKey(key: string): string { key + META }

  /** Does the key contain the metadata suffix anywhere? */
  predicate HasMeta(key: string) {
    exists i | 0 <= i <= |key| :: META <= key[i..]
  }

  /** The key's name, cut to 31 characters and padded with zeros. */
  function KeyField(key: string): (s: seq<byte>)
    ensures |s| == 32
  {
    seq(32, i requires 0 <= i < 32 => if i < |key| && i < 31 then key[i] as int % 256 else 0)
  }

  function Encode(key: string, m: Metadata): (s: seq<byte>)
    ensures |s| == META_SIZE
  {
    KeyField(key) + Le16(m.version) + Le16(m.dataSize) + Le32(m.crc32)
  }

  /** A metadata blob read into a zeroed record; a shorter blob leaves the rest zero. */
  function Record(blob: seq<byte>): (s: seq<byte>)
    requires |blob| <= META_SIZE
    ensures |s| == META_SIZE
  {
    blob + seq(META_SIZE - |blob|, _ => 0)
  }

  function Decode(s: seq<byte>): Metadata
    requires |s| == META_SIZE
  {
    Metadata(FromLe16(s[32..34]), FromLe16(s[34..36]), FromLe32(s[36..40]))
  }

  lemma MetadataRoundTrip(key: string, m: Metadata)
    ensures Decode(Record(Encode(key, m))) == m
  {
    var s := Encode(key, m);
    assert Record(s) == s;
    assert s[32..34] == Le16(m.version) && s[34..36] == Le16(m.dataSize) && s[36..40] == Le32(m.crc32);
    Le16RoundTrip(m.version);
    Le16RoundTrip(m.dataSize);
    Le32RoundTrip(m.crc32);
  }

  /** Where the fields lie in the 40 bytes: 31 characters of the key and a NUL, then version, size and checksum, low bytes first. */
  lemma MetadataLayout(key: string, m: Metadata)
    ensures var s := Encode(key, m);
      && (forall i | 0 <= i < 32 :: s[i] == if i < |key| && i < 31 then key[i] as int % 256 else 0)
      && s[32] == m.version % 256 && s[33] == m.version / 256 && s[34] == m.dataSize % 256 && s[35] == m.dataSize / 256
      && Field(s, 36) == m.crc32
  {
    hide Field, Le32, FromLe32;
    var s := Encode(key, m);
    assert s[36..40] == Le32(m.crc32);
    FieldIs(s, 36);
    Le32RoundTrip(m.crc32);
  }

  /** A key is passed over by the check, the backup and the restore's bookkeeping when "_meta" occurs anywhere in it. */
  lemma HasMetaIff(key: string)
    ensures HasMeta(key) <==> exists before: string, after: string :: key == before + "_meta" + after
  {
    if HasMeta(key) {
      var i :| 0 <= i <= |key| && META <= key[i..];
      assert key == key[..i] + "_meta" + key[i + 5..];
    }
    if exists before: string, after: string :: key == before + "_meta" + after {
      var before: string, after: string :| key == before + "_meta" + after;
      assert key[|before|..] == "_meta" + after;
    }
  }

  lemma MetaKeyHasMeta(key: string)
    ensures HasMeta(MetaKey(key))
  {
    assert META <= MetaKey(key)[|key|..];
  }

  // ---------------------------------------------------------------- single entries

  predicate Readable(s: Store, key: string) {
    MetaKey(key) in s && s[MetaKey(key)].Blob? && |s[MetaKey(key)].bytes| <= META_SIZE
  }

  function MetadataOf(s: Store, key: string): Metadata
    requires Readable(s, key)
  {
    Decode(Record(s[MetaKey(key)].bytes))
  }

  function WriteEntry(s: Store, key: string, data: seq<byte>, version: u16): Store {
    var m := Metadata(version, |data| % 0x1_0000, Crc(data));
    s[MetaKey(key) := Blob(Encode(key, m))][key := Blob(data)]
  }

  datatype ReadResult = Failed | Value(data: seq<byte>, version: u16)

  /** readEntry into a buffer of maxLen bytes. */
  function ReadEntry(s: Store, key: string, maxLen: nat): ReadResult {
    if !Readable(s, key) then Failed
    else if key !in s || !s[key].Blob? || |s[key].bytes| > maxLen then Failed
    else if Crc(s[key].bytes) != MetadataOf(s, key).crc32 then Failed
    else Value(s[key].bytes, MetadataOf(s, key).version)
  }

  function Remove(s: Store, key: string): Store { s - {key, MetaKey(key)} }

  /** What verifyIntegrity demands of a key. */
  predicate Consistent(s: Store, key: string) {
    && Readable(s, key)
    && key in s && s[key].Blob? && |s[key].bytes| <= MetadataOf(s, key).dataSize
    && Crc(s[key].bytes) == MetadataOf(s, key).crc32
  }

  /** A value of some length whose record announces none: verifyIntegrity reads it through a null buffer. */
  predicate NullReads(s: Store, key: string) {
    && !HasMeta(key) && Readable(s, key) && MetadataOf(s, key).dataSize == 0
    && key in s && s[key].Blob? && |s[key].bytes| > 0
  }

  // ---------------------------------------------------------------- whole namespaces

  predicate AllConsistent(s: Store) {
    forall k | k in s && !HasMeta(k) :: Consistent(s, k)
  }

  predicate Verify(n: Namespace) {
    n.Present? && AllConsistent(n.entries)
  }

  /** The values a backup copies. */
  predicate Saved(s: Store, key: string) {
    !HasMeta(key) && key in s && s[key].Blob? && |s[key].bytes| > 0
  }

  /** The key a metadata key belongs to. */
  function Owner(key: string): string
    requires |key| >= 5
  {
    key[..|key| - 5]
  }

  /** The metadata a backup copies along. */
  predicate SavedMeta(s: Store, key: string) {
    |key| >= 5 && key == MetaKey(Owner(key)) && Saved(s, Owner(key)) && Readable(s, Owner(key))
  }

  /** Everything one backup writes, apart from the magic number. */
  function Copies(s: Store): Store {
    map k | k in s && (Saved(s, k) || SavedMeta(s, k)) :: if Saved(s, k) then s[k] else Blob(Record(s[k].bytes))
  }

  function Entries(n: Namespace): Store { if n.Present? then n.entries else map[] }

  /** backup(): an empty primary namespace has nothing to iterate over, and nothing is marked. */
  function Backup(f: Flash): Flash {
    if f.primary.Missing? then f
    else if f.primary.entries == map[] then f.(backup := Present(Entries(f.backup)))
    else f.(backup := Present((Entries(f.backup) + Copies(f.primary.entries))[MAGIC_KEY := Number(BACKUP_MAGIC)]))
  }

  predicate Marked(n: Namespace) {
    n.Present? && MAGIC_KEY in n.entries && n.entries[MAGIC_KEY] == Number(BACKUP_MAGIC)
  }

  /** Everything a restore writes. */
  function Restorable(s: Store): Store {
    map k | k in s && k != MAGIC_KEY && s[k].Blob? && |s[k].bytes| > 0 :: s[k]
  }

  function Restore(f: Flash): Flash {
    if !Marked(f.backup) then f
    else f.(primary := Present(Entries(f.primary) + Restorable(f.backup.entries)))
  }

  /** init(): verify, and restore when that fails. */
  function Init(f: Flash): Flash { if Verify(f.primary) then f else Restore(f) }

  /** The kernel's boot: init, then a fresh backup. */
  function Boot(f: Flash): Flash { Backup(Init(f)) }

  // ---------------------------------------------------------------- what a backup copies

  lemma OwnerOfMeta(key: string)
    ensures |MetaKey(key)| >= 5 && Owner(MetaKey(key)) == key && HasMeta(MetaKey(key))
  {
    MetaKeyHasMeta(key);
  }

  lemma CopiedValue(s: Store, key: string)
    requires !HasMeta(key)
    ensures key in Copies(s) <==> Saved(s, key)
    ensures Saved(s, key) ==> Copies(s)[key] == s[key]
  {
    hide HasMeta;
    if |key| >= 5 {
      OwnerOfMeta(Owner(key));
    }
  }

  lemma CopiedMetadata(s: Store, key: string)
    requires !HasMeta(key)
    ensures MetaKey(key) in Copies(s) <==> Saved(s, key) && Readable(s, key)
    ensures Saved(s, key) && Readable(s, key) ==> Copies(s)[MetaKey(key)] == Blob(Record(s[MetaKey(key)].bytes))
  {
    hide HasMeta, Record;
    OwnerOfMeta(key);
  }

  // ---------------------------------------------------------------- writing and reading

  /** A written entry reads back, whatever was there before. */
  lemma WriteThenRead(s: Store, key: string, data: seq<byte>, version: u16, maxLen: nat)
    ensures ReadEntry(WriteEntry(s, key, data, version), key, maxLen)
         == if |data| <= maxLen then Value(data, version) else Failed
  {
    hide Crc, Encode, Decode, Record;
    MetadataRoundTrip(key, Metadata(version, |data| % 0x1_0000, Crc(data)));
  }

  /** It also passes verification exactly when its length fits the 16-bit size field. */
  lemma WrittenIsConsistentIff(s: Store, key: string, data: seq<byte>, version: u16)
    ensures Consistent(WriteEntry(s, key, data, version), key) <==> |data| <= MAX_DATA
  {
    hide Crc, Encode, Decode, Record;
    MetadataRoundTrip(key, Metadata(version, |data| % 0x1_0000, Crc(data)));
  }

  /** A written entry is read through a null buffer exactly when its length is a multiple of 65536 other than 0. */
  lemma WrittenNullReadsIff(s: Store, key: string, data: seq<byte>, version: u16)
    requires !HasMeta(key)
    ensures NullReads(WriteEntry(s, key, data, version), key) <==> |data| > 0 && |data| % 0x1_0000 == 0
  {
    hide Crc, Encode, Decode, Record, HasMeta;
    MetadataRoundTrip(key, Metadata(version, |data| % 0x1_0000, Crc(data)));
  }

  /** A value that the check looks at and finds wanting. */
  predicate FailsCheck(s: Store, key: string) {
    key in s && !HasMeta(key) && !Consistent(s, key) && !NullReads(s, key)
  }

  lemma NullReadsFail(s: Store)
    ensures forall key :: NullReads(s, key) ==> key in s && !HasMeta(key) && !Consistent(s, key)
  {
    hide HasMeta, Crc, Decode, Record;
  }

  /** Some value is read through a null buffer, and no other one fails the check before. */
  ghost predicate OnlyNullReads(n: Namespace) {
    && n.Present? && (exists key :: NullReads(n.entries, key))
    && forall k | k in n.entries && !HasMeta(k) :: Consistent(n.entries, k) || NullReads(n.entries, k)
  }
}

/** Damage, writes and boots, in any order. */
module NvsRuns {
  import opened Words
  import opened Crc32Spec
  import opened NvsSpec

  /** A key whose value can be lost and brought back. */
  predicate BackedUp(bak: Store, key: string) {
    Saved(bak, key) && key != MAGIC_KEY
  }

  predicate OwnMeta(bak: Store, key: string) {
    |key| >= 5 && key == MetaKey(Owner(key)) && BackedUp(bak, Owner(key))
  }

  ghost predicate BackupInv(bak: Store) {
    && MAGIC_KEY in bak && bak[MAGIC_KEY] == Number(BACKUP_MAGIC)
    && (forall k | k in bak && !HasMeta(k) && k != MAGIC_KEY :: BackedUp(bak, k) && Consistent(bak, k))
    && (forall k | k in bak && HasMeta(k) :: OwnMeta(bak, k))
  }

  ghost predicate PrimaryInv(prim: Store, bak: Store) {
    && MAGIC_KEY !in prim
    && forall k | k in prim && !HasMeta(k) :: Consistent(prim, k) || BackedUp(bak, k)
  }

  /** The state of every device that has made a backup once. */
  ghost predicate Inv(f: Flash) {
    && f.primary.Present? && f.backup.Present?
    && BackupInv(f.backup.entries) && PrimaryInv(f.primary.entries, f.backup.entries)
  }

  /** What a boot leaves behind: every value checks out in both namespaces. */
  ghost predicate Clean(f: Flash) {
    && Inv(f)
    && AllConsistent(f.primary.entries)
    && forall k | BackedUp(f.backup.entries, k) :: Consistent(f.backup.entries, k)
  }

  // ---------------------------------------------------------------- steps

  /** Values and metadata of backed-up keys change or vanish; nothing else does. */
  ghost predicate Damaged(f: Flash, g: Flash) {
    && f.primary.Present? && g.primary.Present? && g.backup == f.backup && f.backup.Present?
    && forall k :: !BackedUp(f.backup.entries, k) && !OwnMeta(f.backup.entries, k) ==> SameAt(f.primary.entries, g.primary.entries, k)
  }

  predicate SameAt(s: Store, t: Store, k: string) {
    (k in s <==> k in t) && (k in s ==> s[k] == t[k])
  }

  predicate Writable(key: string, data: seq<byte>) {
    !HasMeta(key) && key != MAGIC_KEY && |data| <= MAX_DATA
  }

  datatype Step =
    | DamageTo(after: Store)
    | Write(key: string, data: seq<byte>, version: u16)
    | Erase(key: string)
    | PowerUp

  ghost predicate Allowed(f: Flash, step: Step) {
    match step
    case DamageTo(after) => Damaged(f, f.(primary := Present(after)))
    case Write(key, data, version) => Writable(key, data)
    case Erase(key) => !HasMeta(key)
    case PowerUp => true
  }

  function After(f: Flash, step: Step): Flash {
    match step
    case DamageTo(after) => f.(primary := Present(after))
    case Write(key, data, version) => f.(primary := Present(WriteEntry(Entries(f.primary), key, data, version)))
    case Erase(key) => f.(primary := Present(Remove(Entries(f.primary), key)))
    case PowerUp => Boot(f)
  }

  function Run(f: Flash, steps: seq<Step>): Flash
    decreases |steps|
  {
    if |steps| == 0 then f else After(Run(f, steps[..|steps| - 1]), steps[|steps| - 1])
  }

  ghost predicate AllAllowed(f: Flash, steps: seq<Step>)
    decreases |steps|
  {
    |steps| > 0 ==>
      && AllAllowed(f, steps[..|steps| - 1])
      && Allowed(Run(f, steps[..|steps| - 1]), steps[|steps| - 1])
  }

  // ---------------------------------------------------------------- keeping entries apart

  /** Two stores that agree on a key and its metadata agree on its consistency. */
  lemma ConsistentAlike(s: Store, t: Store, key: string)
    requires SameAt(s, t, key) && SameAt(s, t, MetaKey(key))
    ensures Consistent(s, key) <==> Consistent(t, key)
    ensures forall n: nat :: ReadEntry(s, key, n) == ReadEntry(t, key, n)
  {}

  /** A write touches the two entries of its key only. */
  lemma WriteApart(s: Store, key: string, data: seq<byte>, version: u16, other: string)
    requires other != key && MetaKey(key) != other && key != MetaKey(other)
    ensures SameAt(s, WriteEntry(s, key, data, version), other)
    ensures SameAt(s, WriteEntry(s, key, data, version), MetaKey(other))
  {
    hide Crc, Encode;
    OwnerOfMeta(key);
    OwnerOfMeta(other);
  }

  lemma WriteKeepsInv(prim: Store, bak: Store, key: string, data: seq<byte>, version: u16)
    requires PrimaryInv(prim, bak) && Writable(key, data)
    ensures PrimaryInv(WriteEntry(prim, key, data, version), bak)
  {
    hide Crc, Encode, Consistent, HasMeta;
    var after := WriteEntry(prim, key, data, version);
    OwnerOfMeta(key);
    forall k | k in after && !HasMeta(k) ensures k != MAGIC_KEY && (Consistent(after, k) || BackedUp(bak, k)) {
      if k == key {
        WrittenIsConsistentIff(prim, key, data, version);
      } else {
        OwnerOfMeta(k);
        WriteApart(prim, key, data, version, k);
        ConsistentAlike(prim, after, k);
      }
    }
    MagicIsPlain();
  }

  lemma MetaHasAnE(key: string)
    ensures HasMeta(key) ==> 'e' in key
  {
    if HasMeta(key) {
      var i :| 0 <= i <= |key| && META <= key[i..];
      assert key[i + 2] == META[2];
    }
  }

  lemma MagicIsPlain()
    ensures !HasMeta(MAGIC_KEY)
  {
    MetaHasAnE(MAGIC_KEY);
    assert 'e' !in MAGIC_KEY;
  }

  lemma EraseKeepsInv(prim: Store, bak: Store, key: string)
    requires PrimaryInv(prim, bak) && !HasMeta(key)
    ensures PrimaryInv(Remove(prim, key), bak)
  {
    hide Crc, Consistent, HasMeta;
    var after := Remove(prim, key);
    OwnerOfMeta(key);
    forall k | k in after && !HasMeta(k) ensures Consistent(after, k) || BackedUp(bak, k) {
      OwnerOfMeta(k);
      ConsistentAlike(prim, after, k);
    }
  }

  lemma DamageKeepsInv(f: Flash, g: Flash)
    requires Inv(f) && Damaged(f, g)
    ensures Inv(g)
  {
    hide Crc, Consistent, HasMeta, BackupInv;
    var prim, after, bak := f.primary.entries, g.primary.entries, f.backup.entries;
    MagicIsPlain();
    assert SameAt(prim, after, MAGIC_KEY) by {
      if OwnMeta(bak, MAGIC_KEY) {
        OwnerOfMeta(Owner(MAGIC_KEY));
      }
    }
    forall k | k in after && !HasMeta(k) ensures Consistent(after, k) || BackedUp(bak, k) {
      OwnerOfMeta(k);
      if !BackedUp(bak, k) {
        if OwnMeta(bak, k) {
          OwnerOfMeta(Owner(k));
        }
        assert SameAt(prim, after, k);
        assert SameAt(prim, after, MetaKey(k)) by {
          if BackedUp(bak, MetaKey(k)) {
            assert false;
          }
        }
        ConsistentAlike(prim, after, k);
      }
    }
  }

  // ---------------------------------------------------------------- restoring

  /** After a restore every backed-up key and its metadata are as in the backup. */
  lemma RestoreReads(f: Flash, key: string)
    requires Inv(f) && BackedUp(f.backup.entries, key)
    ensures Restore(f).primary.Present?
    ensures var prim, bak := Restore(f).primary.entries, f.backup.entries;
      && SameAt(bak, prim, key) && SameAt(bak, prim, MetaKey(key)) && Consistent(prim, key)
      && forall n: nat :: ReadEntry(prim, key, n) == ReadEntry(bak, key, n)
  {
    hide Crc, HasMeta;
    var prim, bak := Restore(f).primary.entries, f.backup.entries;
    assert Consistent(bak, key);
    OwnerOfMeta(key);
    MagicIsPlain();
    NonemptyMetadata(bak, key);
    ConsistentAlike(bak, prim, key);
  }

  lemma EmptyMetadata()
    ensures Decode(Record([])).dataSize == 0
  {
    assert Record([])[34..36] == [0, 0];
  }

  /** The metadata of a consistent value that is not empty is not empty itself. */
  lemma NonemptyMetadata(s: Store, key: string)
    requires Consistent(s, key) && |s[key].bytes| > 0
    ensures |s[MetaKey(key)].bytes| > 0
  {
    hide Crc, Decode, Record;
    EmptyMetadata();
  }

  /** A restore touches backed-up keys and their metadata only. */
  lemma RestoreApart(f: Flash, key: string)
    requires Inv(f) && !HasMeta(key) && !BackedUp(f.backup.entries, key)
    ensures var prim, after := f.primary.entries, Restore(f).primary.entries;
      SameAt(prim, after, key) && SameAt(prim, after, MetaKey(key))
  {
    hide Crc, HasMeta, Consistent;
    OwnerOfMeta(key);
  }

  lemma RestoreHeals(f: Flash)
    requires Inv(f)
    ensures Restore(f).primary.Present? && Inv(Restore(f)) && AllConsistent(Restore(f).primary.entries)
  {
    hide Crc, HasMeta, Consistent, ReadEntry, BackedUp;
    var prim, after := f.primary.entries, Restore(f).primary.entries;
    assert MAGIC_KEY !in after;
    forall k | k in after && !HasMeta(k) ensures Consistent(after, k) {
      if BackedUp(f.backup.entries, k) {
        RestoreReads(f, k);
      } else {
        RestoreApart(f, k);
        ConsistentAlike(prim, after, k);
      }
    }
  }

  // ---------------------------------------------------------------- backing up

  /** What one backup makes of a key of the backup namespace. */
  lemma BackupOf(f: Flash, key: string)
    requires f.primary.Present? && f.primary.entries != map[] && !HasMeta(key) && key != MAGIC_KEY
    ensures var prim, before, bak := f.primary.entries, Entries(f.backup), Entries(Backup(f).backup);
      if Saved(prim, key) then SameAt(prim, bak, key) else SameAt(before, bak, key)
    ensures var prim, before, bak := f.primary.entries, Entries(f.backup), Entries(Backup(f).backup);
      if Saved(prim, key) && Readable(prim, key)
      then Readable(bak, key) && MetadataOf(bak, key) == MetadataOf(prim, key)
      else SameAt(before, bak, MetaKey(key))
  {
    hide HasMeta, Decode, Copies;
    CopiedValue(f.primary.entries, key);
    CopiedMetadata(f.primary.entries, key);
    OwnerOfMeta(key);
    MagicIsPlain();
    if Readable(f.primary.entries, key) {
      RecordTwice(f.primary.entries[MetaKey(key)].bytes);
    }
  }

  lemma RecordTwice(blob: seq<byte>)
    requires |blob| <= META_SIZE
    ensures Record(Record(blob)) == Record(blob)
  {}

  /** A key of the backup is consistent when its source is. */
  lemma BackupConsistent(f: Flash, key: string)
    requires f.primary.Present? && f.primary.entries != map[] && !HasMeta(key) && key != MAGIC_KEY
    requires if Saved(f.primary.entries, key) then Consistent(f.primary.entries, key) else Consistent(Entries(f.backup), key)
    ensures Consistent(Entries(Backup(f).backup), key)
  {
    hide HasMeta, Decode, Backup, Crc;
    BackupOf(f, key);
  }

  lemma BackupKeyPlain(f: Flash, key: string)
    requires f.primary.Present? && f.primary.entries != map[] && MAGIC_KEY !in f.primary.entries
    requires key in Entries(f.backup) && HasMeta(key) ==> OwnMeta(Entries(f.backup), key)
    requires key in Entries(Backup(f).backup) && HasMeta(key)
    ensures OwnMeta(Entries(Backup(f).backup), key)
  {
    hide HasMeta, Copies, Record, Decode;
    var prim, before := f.primary.entries, Entries(f.backup);
    MagicIsPlain();
    if key in Copies(prim) {
      CopiedHasOwner(prim, key);
    } else {
      assert key in before;
    }
    OwnerOfMeta(Owner(key));
    BackupOf(f, Owner(key));
  }

  lemma CopiedHasOwner(s: Store, key: string)
    requires key in Copies(s) && HasMeta(key)
    ensures |key| >= 5 && key == MetaKey(Owner(key)) && Saved(s, Owner(key))
  {
    hide HasMeta, Record;
  }

  /** Backing up a sound primary namespace leaves everything sound. */
  lemma BackupLeavesClean(f: Flash)
    requires f.primary.Present? && f.primary.entries != map[]
    requires MAGIC_KEY !in f.primary.entries && AllConsistent(f.primary.entries)
    requires BackupInv(Entries(f.backup)) || Entries(f.backup) == map[]
    ensures Clean(Backup(f))
  {
    hide HasMeta, Decode, Record, Crc, Consistent;
    var bak := Entries(Backup(f).backup);
    forall k | k in bak && HasMeta(k) ensures OwnMeta(bak, k) {
      BackupKeyPlain(f, k);
    }
    forall k | k in bak && !HasMeta(k) && k != MAGIC_KEY ensures BackedUp(bak, k) && Consistent(bak, k) {
      BackupOf(f, k);
      BackupConsistent(f, k);
    }
  }

  // ---------------------------------------------------------------- whole runs

  /** One boot: whatever was damaged, both namespaces check out afterwards. */
  lemma BootLeavesClean(f: Flash)
    requires Inv(f)
    ensures Clean(Boot(f))
  {
    hide HasMeta, Decode, Record, Crc, Consistent, Restore, PrimaryInv;
    RestoreHeals(f);
    RestoreKeepsBackup(f);
    var g := Init(f);
    assert MAGIC_KEY !in g.primary.entries by {
      InvHasNoMagic(f);
      InvHasNoMagic(Restore(f));
    }
    if g.primary.entries != map[] {
      BackupLeavesClean(g);
    }
  }

  lemma RestoreKeepsBackup(f: Flash)
    ensures Restore(f).backup == f.backup
  {}

  lemma InvHasNoMagic(f: Flash)
    requires Inv(f)
    ensures MAGIC_KEY !in f.primary.entries
  {}

  lemma StepKeepsInv(f: Flash, step: Step)
    requires Inv(f) && Allowed(f, step)
    ensures Inv(After(f, step))
  {
    hide HasMeta, Decode, Record, Crc, Consistent, Boot, WriteEntry, Remove, BackupInv, PrimaryInv;
    match step
    case DamageTo(after) => DamageKeepsInv(f, f.(primary := Present(after)));
    case Write(key, data, version) => WriteKeepsInv(f.primary.entries, f.backup.entries, key, data, version);
    case Erase(key) => EraseKeepsInv(f.primary.entries, f.backup.entries, key);
    case PowerUp => BootLeavesClean(f);
  }

  /** Over any run of damage, writes, removals and boots the backup survives, and every boot cleans up. */
  lemma {:induction false} EveryBootLeavesClean(f: Flash, steps: seq<Step>)
    requires Inv(f) && AllAllowed(f, steps)
    ensures Inv(Run(f, steps)) && Clean(Boot(Run(f, steps)))
    decreases |steps|
  {
    hide Inv, Clean, Boot, Allowed, After;
    if |steps| > 0 {
      EveryBootLeavesClean(f, steps[..|steps| - 1]);
      StepKeepsInv(Run(f, steps[..|steps| - 1]), steps[|steps| - 1]);
    }
    BootLeavesClean(Run(f, steps));
  }

  /** The first backup of a sound, non-empty namespace starts it all. */
  lemma FirstBackup(f: Flash)
    requires Verify(f.primary) && f.primary.entries != map[] && MAGIC_KEY !in f.primary.entries && Entries(f.backup) == map[]
    ensures Clean(Boot(f))
  {
    BackupLeavesClean(f);
  }

  /** A boot leaves the backup holding what the primary namespace holds. */
  lemma BootBacksUp(f: Flash, key: string)
    requires Inv(f) && Saved(Entries(Boot(f).primary), key)
    ensures var g := Boot(f);
      && g.primary.Present? && g.backup.Present?
      && BackedUp(g.backup.entries, key) && Consistent(g.backup.entries, key) && Consistent(g.primary.entries, key)
      && g.backup.entries[key] == g.primary.entries[key]
      && MetadataOf(g.backup.entries, key) == MetadataOf(g.primary.entries, key)
  {
    hide HasMeta, Decode, Record, Crc, Restore, Copies;
    BootLeavesClean(f);
    InvHasNoMagic(Boot(f));
    BackupOf(Init(f), key);
  }

  /** A value changes under its metadata. */
  function Overwritten(f: Flash, key: string, data: seq<byte>): Flash {
    f.(primary := Present(Entries(f.primary)[key := Blob(data)]))
  }

  /** Overwriting up to four consecutive bytes of a value is noticed by a read and undone by the next boot. */
  lemma BurstIsRepaired(f: Flash, g: Flash, key: string, pre: seq<byte>, u: seq<byte>, v: seq<byte>, post: seq<byte>, maxLen: nat)
    requires Inv(f) && g == Boot(f) && !HasMeta(key) && key in Entries(g.primary)
    requires Entries(g.primary)[key] == Blob(pre + u + post)
    requires |u| == |v| <= 4 && u != v
    ensures ReadEntry(Entries(Overwritten(g, key, pre + v + post).primary), key, maxLen) == Failed
    ensures ReadEntry(Entries(Boot(Overwritten(g, key, pre + v + post)).primary), key, maxLen)
         == ReadEntry(Entries(g.primary), key, maxLen)
  {
    hide HasMeta, Decode, Record, Crc, Restore, Boot, BackupInv, PrimaryInv;
    var h := Overwritten(g, key, pre + v + post);
    BootBacksUp(f, key);
    BootLeavesClean(f);
    OwnerOfMeta(key);
    CrcDetectsWindow(pre, u, v, post);
    assert Damaged(g, h);
    DamageKeepsInv(g, h);
    assert !Consistent(h.primary.entries, key);
    RestoreReads(h, key);
    BootRestores(h, key);
  }

  lemma BootRestores(f: Flash, key: string)
    requires f.primary.Present? && key in f.primary.entries && !HasMeta(key) && !Consistent(f.primary.entries, key)
    ensures Boot(f).primary == Restore(f).primary
  {}

  /**
   * The limit of the check: it looks at the values that are still there.  Everything backed up is readable
   * after init() exactly when some value failed the check or none had vanished.
   */
  lemma InitRecoversIff(f: Flash)
    requires Inv(f)
    ensures (forall k | BackedUp(f.backup.entries, k) :: Consistent(Entries(Init(f).primary), k))
       <==> (!Verify(f.primary) || forall k | BackedUp(f.backup.entries, k) :: k in f.primary.entries)
  {
    hide HasMeta, Decode, Record, Crc, Restore, BackupInv, PrimaryInv;
    if !Verify(f.primary) {
      forall k | BackedUp(f.backup.entries, k) ensures Consistent(Entries(Init(f).primary), k) {
        RestoreReads(f, k);
      }
    }
  }

  /**
   * The failing store: one key, written to an empty device and backed up by a boot.  When value and metadata
   * vanish together, the check has nothing to find, and no later boot brings them back.
   */
  lemma VanishedKeyStaysLost(key: string, data: seq<byte>, version: u16, maxLen: nat)
    requires Writable(key, data) && |data| > 0
    ensures var f := Boot(Flash(Present(WriteEntry(map[], key, data, version)), NvsSpec.Missing));
      var g := After(f, DamageTo(map[]));
      && Inv(f) && Damaged(f, g) && BackedUp(g.backup.entries, key) && Verify(g.primary)
      && Boot(g).primary == g.primary && ReadEntry(Entries(Boot(g).primary), key, maxLen) == Failed
      && Inv(Boot(g)) && BackedUp(Boot(g).backup.entries, key)
  {
    hide HasMeta, Decode, Record, Crc, Encode, Restore, Consistent, BackupInv, PrimaryInv, Copies;
    var s := WriteEntry(map[], key, data, version);
    var f0 := Flash(Present(s), NvsSpec.Missing);
    OwnerOfMeta(key);
    WrittenIsConsistentIff(map[], key, data, version);
    MagicIsPlain();
    assert key in s && MAGIC_KEY !in s && AllConsistent(s);
    FirstBackup(f0);
    BackupOf(f0, key);
    var f := Boot(f0);
    assert Saved(s, key) && BackedUp(f.backup.entries, key);
    var g := After(f, DamageTo(map[]));
    assert OwnMeta(f.backup.entries, MetaKey(key));
    assert Damaged(f, g);
    DamageKeepsInv(f, g);
  }

  /** A lost primary namespace is brought back by the next boot, every backed-up value of it. */
  lemma LostNamespaceRestored(f: Flash, key: string, maxLen: nat)
    requires Inv(f) && BackedUp(f.backup.entries, key)
    ensures var g := f.(primary := NvsSpec.Missing);
      ReadEntry(Entries(Boot(g).primary), key, maxLen) == ReadEntry(f.backup.entries, key, maxLen)
  {
    hide HasMeta, Decode, Record, Crc, Copies;
    var g := f.(primary := Present(map[]));
    assert Inv(g);
    RestoreReads(g, key);
  }

  /** Without the mark nothing is restored, whatever the backup namespace holds. */
  lemma RestoreNeedsMark(f: Flash)
    requires !("_bak_magic" in Entries(f.backup) && Entries(f.backup)["_bak_magic"] == Number(0xBAAC_0DE1))
    ensures Restore(f) == f && Init(f) == f
  {}

  /** A value that loses its metadata is noticed, and the next boot brings both back. */
  lemma LostMetadataNoticed(f: Flash, key: string, maxLen: nat)
    requires Inv(f) && BackedUp(f.backup.entries, key) && key in f.primary.entries && !HasMeta(key)
    ensures var g := f.(primary := Present(f.primary.entries - {key + "_meta"}));
      !Verify(g.primary) && ReadEntry(Entries(Boot(g).primary), key, maxLen) == ReadEntry(f.backup.entries, key, maxLen)
  {
    hide HasMeta, Decode, Record, Crc, Restore, BackupInv, PrimaryInv;
    var g := f.(primary := Present(f.primary.entries - {MetaKey(key)}));
    OwnerOfMeta(key);
    assert OwnMeta(f.backup.entries, MetaKey(key));
    assert Damaged(f, g);
    DamageKeepsInv(f, g);
    assert !Consistent(g.primary.entries, key);
    RestoreReads(g, key);
    BootRestores(g, key);
  }

  /** A backup is marked exactly when it was before or there is something to back up. */
  lemma BackupMarksIff(f: Flash)
    ensures Marked(Backup(f).backup) <==> Marked(f.backup) || (f.primary.Present? && f.primary.entries != map[])
    ensures f.primary.Present? && f.primary.entries != map[] ==> Entries(Backup(f).backup)["_bak_magic"] == Number(0xBAAC_0DE1)
    ensures Backup(f).primary == f.primary
  {
    hide HasMeta, Copies;
  }

  /** One such value in a sound namespace is all it takes. */
  lemma LongValueStopsBoot(s: Store, key: string, data: seq<byte>, version: u16)
    requires AllConsistent(s) && !HasMeta(key) && |data| > 0 && |data| % 0x1_0000 == 0
    ensures OnlyNullReads(Present(WriteEntry(s, key, data, version)))
  {
    hide Crc, Encode, Consistent, HasMeta, NullReads;
    var after := WriteEntry(s, key, data, version);
    WrittenNullReadsIff(s, key, data, version);
    OwnerOfMeta(key);
    forall k | k in after && !HasMeta(k) ensures Consistent(after, k) || NullReads(after, k) {
      if k != key {
        OwnerOfMeta(k);
        WriteApart(s, key, data, version, k);
        ConsistentAlike(s, after, k);
      }
    }
  }

  /**
   * Removing a key does not reach the backup.  The key stays away over the next boot exactly when every
   * remaining value checks out then; otherwise the restore brings it back with its backed-up value.
   */
  lemma RemovedKeyStaysIff(f: Flash, g: Flash, key: string, maxLen: nat)
    requires Inv(f) && BackedUp(f.backup.entries, key) && g == After(f, Erase(key))
    ensures ReadEntry(Entries(g.primary), key, maxLen) == Failed
    ensures key !in Entries(Boot(g).primary) <==> Verify(g.primary)
    ensures !Verify(g.primary) ==> ReadEntry(Entries(Boot(g).primary), key, maxLen) == ReadEntry(f.backup.entries, key, maxLen)
  {
    hide HasMeta, Decode, Record, Crc, Consistent, Restore, BackupInv, PrimaryInv;
    EraseKeepsInv(f.primary.entries, f.backup.entries, key);
    RestoreReads(g, key);
    if !Verify(g.primary) {
      UnsoundBootRestores(g);
    }
  }

  lemma UnsoundBootRestores(f: Flash)
    requires !Verify(f.primary)
    ensures Boot(f).primary == Restore(f).primary
  {}
}

/** The storage in place: both namespaces are changed key by key, in whatever order the iterator yields them. */
module NvsImpl {
  import opened Words
  import opened Crc32Spec
  import opened NvsSpec

  class NvsManager {
    var primary: Namespace
    var backup: Namespace

    ghost function Contents(): Flash
      reads this
    {
      Flash(primary, backup)
    }

    constructor (primary: Namespace, backup: Namespace)
      ensures Contents() == Flash(primary, backup)
    {
      this.primary, this.backup := primary, backup;
    }

    /** Opening a namespace for writing creates it. */
    method WriteEntry(key: string, data: seq<byte>, version: u16) returns (ok: bool)
      modifies this`primary
      ensures ok && primary == Present(NvsSpec.WriteEntry(Entries(old(primary)), key, data, version))
    {
      var entries := Entries(primary);
      var meta := Metadata(version, |data| % 0x1_0000, Crc(data));
      entries := entries[MetaKey(key) := Blob(Encode(key, meta))];
      entries := entries[key := Blob(data)];
      primary := Present(entries);
      return true;
    }

    method ReadEntry(key: string, maxLen: nat) returns (r: ReadResult)
      ensures r == NvsSpec.ReadEntry(Entries(primary), key, maxLen)
    {
      if primary.Missing? {
        return Failed;
      }
      var entries := primary.entries;
      if !Readable(entries, key) {
        return Failed;
      }
      var meta := MetadataOf(entries, key);
      if key !in entries || !entries[key].Blob? || |entries[key].bytes| > maxLen {
        return Failed;
      }
      var data := entries[key].bytes;
      if Crc(data) != meta.crc32 {
        return Failed;
      }
      return Value(data, meta.version);
    }

    /** The length of the value, or -1. */
    method GetBlob(key: string, maxLen: nat) returns (length: int, r: ReadResult)
      ensures r == NvsSpec.ReadEntry(Entries(primary), key, maxLen)
      ensures length == if r.Value? then |r.data| else -1
    {
      if primary.Missing? || key !in primary.entries || !primary.entries[key].Blob? {
        return -1, Failed;
      }
      var dataLen := |primary.entries[key].bytes|;
      if dataLen > maxLen {
        return -1, Failed;
      }
      r := ReadEntry(key, maxLen);
      length := if r.Value? then dataLen else -1;
    }

    method Remove(key: string) returns (ok: bool)
      modifies this`primary
      ensures ok && primary == Present(NvsSpec.Remove(Entries(old(primary)), key))
    {
      var entries := Entries(primary);
      entries := entries - {key};
      entries := entries - {MetaKey(key)};
      primary := Present(entries);
      assert entries == NvsSpec.Remove(Entries(old(primary)), key);
      return true;
    }

    /**
     * Checks the values in any order of iteration.  A value that is read through a null buffer stops the
     * device, if no other one fails the check before.
     */
    method VerifyIntegrity() returns (verdict: Verdict)
      ensures verdict == Passed <==> Verify(primary)
      ensures verdict == Refuted && primary.Present? ==> exists k :: FailsCheck(primary.entries, k)
      ensures verdict == NullRead ==> primary.Present? && exists k :: NullReads(primary.entries, k)
    {
      hide HasMeta, Record, Decode, Crc;
      if primary.Missing? {
        return Refuted;
      }
      var entries := primary.entries;
      var todo := entries.Keys;
      while todo != {}
        invariant todo <= entries.Keys
        invariant forall k | k in entries && k !in todo && !HasMeta(k) :: Consistent(entries, k)
        decreases |todo|
      {
        var key :| key in todo;
        todo := todo - {key};
        if HasMeta(key) {
          continue;
        }
        assert Consistent(entries, key) || NullReads(entries, key) || FailsCheck(entries, key);
        if !Readable(entries, key) {
          return Refuted;
        }
        var meta := MetadataOf(entries, key);
        if entries[key].Blob? && meta.dataSize == 0 && |entries[key].bytes| > 0 {
          assert NullReads(entries, key);
          return NullRead;
        }
        if !entries[key].Blob? || |entries[key].bytes| > meta.dataSize {
          return Refuted;
        }
        if Crc(entries[key].bytes) != meta.crc32 {
          return Refuted;
        }
      }
      verdict := Passed;
    }

    /** False when there is nothing to back up. */
    method Backup() returns (ok: bool)
      modifies this`backup
      ensures Contents() == NvsSpec.Backup(old(Contents()))
      ensures ok == (primary.Present? && primary.entries != map[])
    {
      if primary.Missing? {
        return false;
      }
      var src, dst := primary.entries, Entries(backup);
      backup := Present(dst);
      if src == map[] {
        return false;
      }
      dst := CopyAll(src, dst);
      backup := Present(dst[MAGIC_KEY := Number(BACKUP_MAGIC)]);
      return true;
    }

    /** The iteration over the primary namespace. */
    static method CopyAll(src: Store, initial: Store) returns (dst: Store)
      ensures dst == initial + Copies(src)
    {
      hide HasMeta, Copies, Record, Part;
      dst := initial;
      var todo := src.Keys;
      NothingCopied(src);
      while todo != {}
        invariant todo <= src.Keys
        invariant dst == initial + Part(src, todo)
        decreases |todo|
      {
        var key :| key in todo;
        PartStep(src, todo, key);
        todo := todo - {key};
        if HasMeta(key) {
          continue;
        }
        if !src[key].Blob? || |src[key].bytes| == 0 {
          continue;
        }
        dst := dst[key := src[key]];
        if Readable(src, key) {
          dst := dst[MetaKey(key) := Blob(Record(src[MetaKey(key)].bytes))];
        }
      }
      AllCopied(src);
    }

    method RestoreFromBackup() returns (ok: bool)
      modifies this`primary
      ensures Contents() == NvsSpec.Restore(old(Contents()))
      ensures ok == Marked(backup)
    {
      if backup.Missing? || MAGIC_KEY !in backup.entries || backup.entries[MAGIC_KEY] != Number(BACKUP_MAGIC) {
        return false;
      }
      primary := Present(Entries(primary));
      var dst := WriteAll(backup.entries, primary.entries);
      primary := Present(dst);
      return true;
    }

    /** The iteration over the backup namespace. */
    static method WriteAll(src: Store, initial: Store) returns (dst: Store)
      ensures dst == initial + Restorable(src)
    {
      hide Restorable, Written;
      dst := initial;
      var todo := src.Keys;
      NothingWritten(src);
      while todo != {}
        invariant todo <= src.Keys
        invariant dst == initial + Written(src, todo)
        decreases |todo|
      {
        var key :| key in todo;
        WriteStep(src, todo, key);
        todo := todo - {key};
        if key == MAGIC_KEY || !src[key].Blob? || |src[key].bytes| == 0 {
          continue;
        }
        dst := dst[key := src[key]];
      }
      AllWritten(src);
    }

    /** With `fault` the device stopped in the check. */
    method Init() returns (ok: bool, fault: bool)
      modifies this`primary
      ensures !fault ==> ok && Contents() == NvsSpec.Init(old(Contents()))
      ensures fault ==> Contents() == old(Contents()) && primary.Present? && exists k :: NullReads(primary.entries, k)
      ensures old(OnlyNullReads(primary)) ==> fault
    {
      hide NullReads, Consistent, HasMeta;
      if primary.Present? {
        NullReadsFail(primary.entries);
      }
      var verdict := VerifyIntegrity();
      if verdict == NullRead {
        return false, true;
      }
      if verdict == Refuted {
        var restored := RestoreFromBackup();
      }
      return true, false;
    }
  }

  /** What the check comes to. */
  datatype Verdict = Passed | Refuted | NullRead

  /** The storage part of the kernel's boot. */
  method KernelBoot(nvs: NvsManager) returns (fault: bool)
    modifies nvs
    ensures !fault ==> nvs.Contents() == Boot(old(nvs.Contents()))
    ensures fault ==> nvs.Contents() == old(nvs.Contents()) && nvs.primary.Present? && exists k :: NullReads(nvs.primary.entries, k)
    ensures old(OnlyNullReads(nvs.primary)) ==> fault
  {
    hide NullReads, OnlyNullReads;
    var ready;
    ready, fault := nvs.Init();
    if fault {
      return;
    }
    if ready {
      var saved := nvs.Backup();
    }
  }

  // ---------------------------------------------------------------- the copy loop

  /** The key whose iteration writes the given key of the backup. */
  function Writer(key: string): string { if HasMeta(key) && |key| >= 5 then Owner(key) else key }

  /** What has been copied while the keys in todo are still to come. */
  function Part(src: Store, todo: set<string>): Store {
    map k | k in Copies(src) && Writer(k) !in todo :: Copies(src)[k]
  }

  lemma NothingCopied(src: Store)
    ensures Part(src, src.Keys) == map[]
  {}

  lemma AllCopied(src: Store)
    ensures Part(src, {}) == Copies(src)
  {}

  /** Each copied entry is a saved value or the metadata of one. */
  lemma WriterOf(src: Store, k: string)
    requires k in Copies(src)
    ensures Saved(src, Writer(k)) && (k == Writer(k) || (k == MetaKey(Writer(k)) && Readable(src, Writer(k))))
  {
    hide HasMeta, Record;
    if SavedMeta(src, k) {
      OwnerOfMeta(Owner(k));
    }
  }

  lemma PartStep(src: Store, todo: set<string>, key: string)
    requires key in src && key in todo
    ensures !Saved(src, key) ==> Part(src, todo - {key}) == Part(src, todo)
    ensures Saved(src, key) && !Readable(src, key) ==> Part(src, todo - {key}) == Part(src, todo)[key := src[key]]
    ensures Saved(src, key) && Readable(src, key) ==>
      Part(src, todo - {key}) == Part(src, todo)[key := src[key]][MetaKey(key) := Blob(Record(src[MetaKey(key)].bytes))]
  {
    hide HasMeta, Record, Copies;
    forall k | k in Copies(src) ensures Saved(src, Writer(k)) && (k == Writer(k) || (k == MetaKey(Writer(k)) && Readable(src, Writer(k)))) {
      WriterOf(src, k);
    }
    if Saved(src, key) {
      CopiedValue(src, key);
      CopiedMetadata(src, key);
      OwnerOfMeta(key);
    }
  }

  /** What has been restored while the keys in todo are still to come. */
  function Written(src: Store, todo: set<string>): Store {
    map k | k in Restorable(src) && k !in todo :: src[k]
  }

  lemma NothingWritten(src: Store)
    ensures Written(src, src.Keys) == map[]
  {}

  lemma AllWritten(src: Store)
    ensures Written(src, {}) == Restorable(src)
  {}

  lemma WriteStep(src: Store, todo: set<string>, key: string)
    requires key in src && key in todo
    ensures Written(src, todo - {key})
         == if key == MAGIC_KEY || !src[key].Blob? || |src[key].bytes| == 0 then Written(src, todo) else Written(src, todo)[key := src[key]]
  {}
}
