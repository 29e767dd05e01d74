/**
 The on-disk format of SimpleFS: 512-byte sectors, little-endian 32-bit words,
 four 128-byte inodes per table sector and sixteen 32-byte directory entries per
 directory block.  Everything above this module speaks about decoded inodes and
 entries; the lemmas here say what one encoded update changes in that view.
 */
module DiskFormat {
  import opened Machine

  type Byte = x: int | 0 <= x < 256
  type Name = seq<Byte>

  const SECTOR_SIZE := 512
  const TOTAL_SECTORS := 32768
  const MAGIC: U32 := 0x50435231
  const INODE_START := 1
  const INODE_COUNT := 64
  const DATA_START := 17
  const DIRECT_BLOCKS := 30
  const MAX_FILENAME := 28
  const ENTRIES := 16

  const FLAG_FILE: U32 := 1
  const FLAG_DIR: U32 := 3

  type Sector = s: seq<Byte> | |s| == SECTOR_SIZE witness seq(SECTOR_SIZE, i => 0)
  type Blocks = s: seq<U32> | |s| == DIRECT_BLOCKS witness seq(DIRECT_BLOCKS, i => 0)
  type DataArea = s: seq<Sector> | |s| == TOTAL_SECTORS - DATA_START witness seq<Sector>(TOTAL_SECTORS - DATA_START, i => ZeroSector())
  type Disk = d: seq<Sector> | |d| == TOTAL_SECTORS witness seq<Sector>(TOTAL_SECTORS, i => ZeroSector())

  function ZeroSector(): Sector { seq(SECTOR_SIZE, i => 0) }

  function NoBlocks(): Blocks { seq(DIRECT_BLOCKS, i => 0) }

  datatype Inode = Inode(size: U32, flags: U32, blocks: Blocks) {
    // flags & INODE_USED
    predicate Used() { flags % 2 == 1 }
    // flags & INODE_DIR
    predicate Dir() { flags / 2 % 2 == 1 }
  }

  datatype DirEntry = DirEntry(ino: U32, name: Name)

  // ---- 32-bit little-endian words

  function U32Byte(v: U32, k: nat): (b: Byte)
    requires k < 4
  {
    if k == 0 then v % 256
    else if k == 1 then v / 256 % 256
    else if k == 2 then v / 256 / 256 % 256
    else v / 256 / 256 / 256
  }

  function WordOf(b0: Byte, b1: Byte, b2: Byte, b3: Byte): U32 {
    b0 + 256 * b1 + 65536 * b2 + 16777216 * b3
  }

  function U32At(s: seq<Byte>, o: nat): U32
    requires o + 4 <= |s|
  {
    WordOf(s[o], s[o + 1], s[o + 2], s[o + 3])
  }

  lemma WordOfBytes(v: U32)
    ensures WordOf(U32Byte(v, 0), U32Byte(v, 1), U32Byte(v, 2), U32Byte(v, 3)) == v
  {
    var q1 := v / 256;
    var q2 := q1 / 256;
    assert v == 256 * q1 + v % 256 && q1 == 256 * q2 + q1 % 256 && q2 == 256 * (q2 / 256) + q2 % 256;
  }

  function EncodeWords(ws: seq<U32>): (s: seq<Byte>)
    ensures |s| == 4 * |ws|
  {
    seq(4 * |ws|, b requires 0 <= b < 4 * |ws| => U32Byte(ws[b / 4], b % 4))
  }

  lemma EncodedWordAt(ws: seq<U32>, k: nat)
    requires k < |ws|
    ensures U32At(EncodeWords(ws), 4 * k) == ws[k]
  {
    var s := EncodeWords(ws);
    assert s[4 * k] == U32Byte(ws[k], 0);
    assert s[4 * k + 1] == U32Byte(ws[k], 1);
    assert s[4 * k + 2] == U32Byte(ws[k], 2);
    assert s[4 * k + 3] == U32Byte(ws[k], 3);
    WordOfBytes(ws[k]);
  }

  lemma ZeroWord(b: seq<Byte>, o: nat)
    requires o + 4 <= |b| && forall i :: 0 <= i < |b| ==> b[i] == 0
    ensures U32At(b, o) == 0
  {
  }

  // ---- inodes

  function DecodeInode(b: seq<Byte>): Inode
    requires |b| == 128
  {
    Inode(U32At(b, 0), U32At(b, 4),
          seq(DIRECT_BLOCKS, j requires 0 <= j < DIRECT_BLOCKS => U32At(b, 4 * (j + 2))))
  }

  function InodeWords(x: Inode): (ws: seq<U32>)
    ensures |ws| == 32
  {
    [x.size, x.flags] + x.blocks
  }

  function EncodeInode(x: Inode): (b: seq<Byte>)
    ensures |b| == 128
  {
    EncodeWords(InodeWords(x))
  }

  lemma EncodeInodeWords(x: Inode)
    ensures EncodeInode(x) == EncodeWords(InodeWords(x))
    ensures InodeWords(x)[0] == x.size && InodeWords(x)[1] == x.flags
  {
    hide EncodeWords;
  }

  lemma BlockWord(x: Inode, j: nat)
    requires j < DIRECT_BLOCKS
    ensures U32At(EncodeInode(x), 4 * (j + 2)) == x.blocks[j]
  {
    hide U32At, EncodeWords, EncodeInode;
    EncodeInodeWords(x);
    EncodedWordAt(InodeWords(x), j + 2);
    assert InodeWords(x)[j + 2] == x.blocks[j];
  }

  /** The 128-byte image of an inode decodes to that inode. */
  lemma DecodeEncodeInode(x: Inode)
    ensures DecodeInode(EncodeInode(x)) == x
  {
    hide U32At, EncodeWords, EncodeInode, InodeWords;
    EncodeInodeWords(x);
    EncodedWordAt(InodeWords(x), 0);
    EncodedWordAt(InodeWords(x), 1);
    forall j | 0 <= j < DIRECT_BLOCKS
      ensures DecodeInode(EncodeInode(x)).blocks[j] == x.blocks[j]
    {
      BlockWord(x, j);
    }
    assert DecodeInode(EncodeInode(x)).blocks == x.blocks;
  }

  function GetInode(s: Sector, k: nat): Inode
    requires k < 4
  {
    DecodeInode(s[128 * k..128 * k + 128])
  }

  function PutInode(s: Sector, k: nat, x: Inode): Sector
    requires k < 4
  {
    s[..128 * k] + EncodeInode(x) + s[128 * k + 128..]
  }

  /** What a stretch of a sequence reads after x was laid over it at lo. */
  lemma Overlaid<T>(s: seq<T>, lo: nat, x: seq<T>, a: nat, b: nat)
    requires lo + |x| <= |s| && a <= b <= |s|
    ensures var t := s[..lo] + x + s[lo + |x|..];
      |t| == |s| && t[lo..lo + |x|] == x && (b <= lo || lo + |x| <= a ==> t[a..b] == s[a..b])
  {
  }

  /** Storing an inode in its quarter of a table sector is read back exactly, and the
      other three quarters decode as before. */
  lemma GetPutInode(s: Sector, k: nat, x: Inode, j: nat)
    requires k < 4 && j < 4
    ensures GetInode(PutInode(s, k, x), j) == if j == k then x else GetInode(s, j)
  {
    hide EncodeInode, DecodeInode;
    Overlaid(s, 128 * k, EncodeInode(x), 128 * j, 128 * j + 128);
    if j == k {
      DecodeEncodeInode(x);
    }
  }

  // ---- directory entries

  /** The bytes before the first NUL, as strcmp and strlen see them. */
  function CString(s: seq<Byte>): (n: seq<Byte>)
    ensures |n| <= |s| && n == s[..|n|]
    ensures forall i :: 0 <= i < |n| ==> n[i] != 0
    ensures |n| < |s| ==> s[|n|] == 0
  {
    if s == [] || s[0] == 0 then [] else [s[0]] + CString(s[1..])
  }

  lemma CStringIs(s: seq<Byte>, n: seq<Byte>)
    requires |n| < |s| && s[..|n|] == n && s[|n|] == 0
    requires forall i :: 0 <= i < |n| ==> n[i] != 0
    ensures CString(s) == n
  {
    if n != [] {
      assert s[0] == n[0];
      assert s[1..][..|n[1..]|] == n[1..];
      CStringIs(s[1..], n[1..]);
    }
  }

  /** A C string: no NUL inside. */
  predicate IsCName(name: seq<Byte>) {
    forall i :: 0 <= i < |name| ==> name[i] != 0
  }

  function DecodeEntry(b: seq<Byte>): DirEntry
    requires |b| == 32
  {
    DirEntry(U32At(b, 0), CString(b[4..]))
  }

  function GetEntry(s: Sector, k: nat): DirEntry
    requires k < ENTRIES
  {
    DecodeEntry(SlotImage(s, k))
  }

  function EncodeU32(v: U32): (s: seq<Byte>)
    ensures |s| == 4
  {
    [U32Byte(v, 0), U32Byte(v, 1), U32Byte(v, 2), U32Byte(v, 3)]
  }

  /** The kernel's store into a slot: the inode number, then name and NUL over the old
      filename bytes; what followed the NUL stays. */
  function EntryImage(b: seq<Byte>, e: DirEntry): (r: seq<Byte>)
    requires |b| == 32 && |e.name| < MAX_FILENAME
    ensures |r| == 32
  {
    EncodeU32(e.ino) + (e.name + [0] + b[5 + |e.name|..])
  }

  lemma DecodeEntryImage(b: seq<Byte>, e: DirEntry)
    requires |b| == 32 && |e.name| < MAX_FILENAME && IsCName(e.name)
    ensures DecodeEntry(EntryImage(b, e)) == e
  {
    WordOfBytes(e.ino);
    var raw := EntryImage(b, e)[4..];
    assert raw == e.name + [0] + b[5 + |e.name|..];
    assert raw[..|e.name|] == e.name;
    CStringIs(raw, e.name);
  }

  function SlotImage(s: Sector, k: nat): (b: seq<Byte>)
    requires k < ENTRIES
    ensures |b| == 32
  {
    s[32 * k..32 * k + 32]
  }

  function PutSlot(s: Sector, k: nat, b: seq<Byte>): Sector
    requires k < ENTRIES && |b| == 32
  {
    s[..32 * k] + b + s[32 * k + 32..]
  }

  /** Overwriting one 32-byte slot changes one row of the directory listing. */
  lemma EntriesPutSlot(s: Sector, k: nat, b: seq<Byte>)
    requires k < ENTRIES && |b| == 32
    ensures Entries(PutSlot(s, k, b)) == Entries(s)[k := DecodeEntry(b)]
  {
    hide DecodeEntry;
    var t := PutSlot(s, k, b);
    forall j | 0 <= j < ENTRIES
      ensures GetEntry(t, j) == if j == k then DecodeEntry(b) else GetEntry(s, j)
    {
      Overlaid(s, 32 * k, b, 32 * j, 32 * j + 32);
    }
  }

  // ---- the decoded view of a disk

  function InodeAt(d: Disk, i: nat): Inode
    requires i < INODE_COUNT
  {
    GetInode(d[INODE_START + i / 4], i % 4)
  }

  type Table = t: seq<Inode> | |t| == INODE_COUNT witness seq(INODE_COUNT, i => Inode(0, 0, NoBlocks()))

  function Inodes(d: Disk): (t: Table) {
    seq(INODE_COUNT, i requires 0 <= i < INODE_COUNT => InodeAt(d, i))
  }

  /** The format in bytes: inode i is 32 little-endian words, size, flags and thirty blocks,
      at offset 128 * (i % 4) of sector 1 + i / 4. */
  lemma InodeBytes(d: Disk, i: nat, j: nat)
    requires i < 64 && j < 32
    ensures var x, s, o := Inodes(d)[i], d[1 + i / 4], 128 * (i % 4) + 4 * j;
      o + 4 <= 512 && (if j == 0 then x.size else if j == 1 then x.flags else x.blocks[j - 2])
        == s[o] as int + 0x100 * (s[o + 1] as int) + 0x1_0000 * (s[o + 2] as int) + 0x100_0000 * (s[o + 3] as int)
  {
    hide U32At, DecodeInode;
    var s, o := d[1 + i / 4], 128 * (i % 4);
    DecodedWord(s[o..o + 128], j);
    SliceWord(s, o, 4 * j);
    assert Inodes(d)[i] == DecodeInode(s[o..o + 128]);
  }

  lemma DecodedWord(b: seq<Byte>, j: nat)
    requires |b| == 128 && j < 32
    ensures var x := DecodeInode(b);
      (if j == 0 then x.size else if j == 1 then x.flags else x.blocks[j - 2]) == U32At(b, 4 * j)
  {
    hide U32At;
  }

  lemma SliceWord(s: Sector, o: nat, k: nat)
    requires o + 128 <= 512 && k + 4 <= 128
    ensures U32At(s[o..o + 128], k) == s[o + k] as int + 0x100 * (s[o + k + 1] as int) + 0x1_0000 * (s[o + k + 2] as int) + 0x100_0000 * (s[o + k + 3] as int)
  {
  }

  /** Slot k of a directory sector: a little-endian inode number at offset 32 * k, then the
      name, up to a NUL or to the end of the slot. */
  lemma EntryBytes(s: Sector, k: nat)
    requires k < 16
    ensures var e, o := Entries(s)[k], 32 * k;
      && e.ino == s[o] as int + 0x100 * (s[o + 1] as int) + 0x1_0000 * (s[o + 2] as int) + 0x100_0000 * (s[o + 3] as int)
      && |e.name| <= 28 && e.name == s[o + 4..o + 4 + |e.name|] && IsCName(e.name) && (|e.name| < 28 ==> s[o + 4 + |e.name|] == 0)
  {
    hide CString;
    var b := SlotImage(s, k);
    assert Entries(s)[k] == DecodeEntry(b);
    assert forall i :: 0 <= i < 32 ==> b[i] == s[32 * k + i];
    assert forall i :: 0 <= i < 28 ==> b[4..][i] == s[32 * k + 4 + i];
  }

  type Listing = t: seq<DirEntry> | |t| == ENTRIES witness seq(ENTRIES, i => DirEntry(0, []))

  function Entries(s: Sector): (t: Listing) {
    seq(ENTRIES, k requires 0 <= k < ENTRIES => GetEntry(s, k))
  }

  /** One sector write. */
  datatype Write = Write(sec: nat, data: Sector)

  function InodeWrite(d: Disk, i: nat, x: Inode): Write
    requires i < INODE_COUNT
  {
    Write(INODE_START + i / 4, PutInode(d[INODE_START + i / 4], i % 4, x))
  }

  function Store(d: Disk, w: Write): Disk
    requires w.sec < TOTAL_SECTORS
  {
    d[w.sec := w.data]
  }

  predicate InRange(ws: seq<Write>) {
    forall k :: 0 <= k < |ws| ==> ws[k].sec < TOTAL_SECTORS
  }

  /** The disk after a list of sector writes; a crash leaves a prefix of the list. */
  function Apply(d: Disk, ws: seq<Write>): Disk
    requires InRange(ws)
    decreases |ws|
  {
    if ws == [] then d else Apply(Store(d, ws[0]), ws[1..])
  }

  lemma {:induction false} ApplySplit(d: Disk, a: seq<Write>, b: seq<Write>)
    requires InRange(a) && InRange(b)
    ensures InRange(a + b) && Apply(d, a + b) == Apply(Apply(d, a), b)
    decreases |a|
  {
    if a == [] {
      assert a + b == b;
    } else {
      ApplySplit(Store(d, a[0]), a[1..], b);
      assert (a + b)[1..] == a[1..] + b;
    }
  }

  // ---- the decoded file system and its two kinds of update

  /** Inode table and data sectors; data[0] is sector 17. */
  datatype Fs = Fs(table: Table, data: DataArea) {
    function Block(b: nat): Sector
      requires DATA_START <= b < TOTAL_SECTORS
    {
      data[b - DATA_START]
    }
  }

  datatype Effect = SetInode(i: nat, x: Inode) | SetBlock(b: nat, s: Sector) {
    predicate Ok() {
      match this
      case SetInode(i, _) => i < INODE_COUNT
      case SetBlock(b, _) => DATA_START <= b < TOTAL_SECTORS
    }
  }

  function Do(fs: Fs, e: Effect): Fs
    requires e.Ok()
  {
    match e
    case SetInode(i, x) => fs.(table := fs.table[i := x])
    case SetBlock(b, s) => fs.(data := fs.data[b - DATA_START := s])
  }

  predicate AllOk(es: seq<Effect>) {
    forall k :: 0 <= k < |es| ==> es[k].Ok()
  }

  function DoAll(fs: Fs, es: seq<Effect>): Fs
    requires AllOk(es)
    decreases |es|
  {
    if es == [] then fs else DoAll(Do(fs, es[0]), es[1..])
  }

  lemma {:induction false} DoAllSplit(fs: Fs, a: seq<Effect>, b: seq<Effect>)
    requires AllOk(a) && AllOk(b)
    ensures AllOk(a + b) && DoAll(fs, a + b) == DoAll(DoAll(fs, a), b)
    decreases |a|
  {
    if a == [] {
      assert a + b == b;
    } else {
      DoAllSplit(Do(fs, a[0]), a[1..], b);
      assert (a + b)[1..] == a[1..] + b;
    }
  }

  lemma DoTwo(fs: Fs, e1: Effect, e2: Effect)
    requires e1.Ok() && e2.Ok()
    ensures AllOk([e1, e2]) && DoAll(fs, [e1, e2]) == Do(Do(fs, e1), e2)
  {
    hide Do;
    var es := [e1, e2];
    assert es[1..] == [e2] && es[1..][1..] == [];
    assert DoAll(fs, es) == DoAll(Do(fs, e1), es[1..]);
    assert DoAll(Do(fs, e1), [e2]) == DoAll(Do(Do(fs, e1), e2), []);
  }

  /** What a disk decodes to. */
  function Decode(d: Disk): Fs {
    Fs(Inodes(d), d[DATA_START..])
  }

  /** The sector write that carries out an update on a given disk. */
  function SectorWrite(d: Disk, e: Effect): (w: Write)
    requires e.Ok()
    ensures w.sec < TOTAL_SECTORS
  {
    match e
    case SetInode(i, x) => InodeWrite(d, i, x)
    case SetBlock(b, s) => Write(b, s)
  }

  /** One sector write updates one inode or one data block and nothing else. */
  lemma DecodeStore(d: Disk, e: Effect)
    requires e.Ok()
    ensures Decode(Store(d, SectorWrite(d, e))) == Do(Decode(d), e)
    ensures Store(d, SectorWrite(d, e))[0] == d[0]
  {
    var d' := Store(d, SectorWrite(d, e));
    forall k | 0 <= k < INODE_COUNT
      ensures InodeAt(d', k) == Do(Decode(d), e).table[k]
    {
      if e.SetInode? && k / 4 == e.i / 4 {
        GetPutInode(d[INODE_START + e.i / 4], e.i % 4, e.x, k % 4);
      }
    }
    assert d'[DATA_START..] == Do(Decode(d), e).data;
  }

  /** The sector writes of a list of updates, each encoded against the disk it meets. */
  function SectorWrites(d: Disk, es: seq<Effect>): (ws: seq<Write>)
    requires AllOk(es)
    ensures |ws| == |es| && InRange(ws)
    decreases |es|
  {
    if es == [] then []
    else [SectorWrite(d, es[0])] + SectorWrites(Store(d, SectorWrite(d, es[0])), es[1..])
  }

  /** Cutting the sector writes short is cutting the updates short. */
  lemma {:induction false} DecodePrefix(d: Disk, es: seq<Effect>, k: nat)
    requires AllOk(es) && k <= |es|
    ensures Decode(Apply(d, SectorWrites(d, es)[..k])) == DoAll(Decode(d), es[..k])
    ensures Apply(d, SectorWrites(d, es)[..k])[0] == d[0]
    decreases k
  {
    var ws := SectorWrites(d, es);
    if k > 0 {
      var d1 := Store(d, ws[0]);
      DecodeStore(d, es[0]);
      DecodePrefix(d1, es[1..], k - 1);
      assert ws[..k][1..] == SectorWrites(d1, es[1..])[..k - 1];
      assert es[..k][1..] == es[1..][..k - 1];
    }
  }

  lemma {:induction false} SectorWritesSplit(d: Disk, a: seq<Effect>, b: seq<Effect>)
    requires AllOk(a) && AllOk(b)
    ensures AllOk(a + b)
    ensures SectorWrites(d, a + b) == SectorWrites(d, a) + SectorWrites(Apply(d, SectorWrites(d, a)), b)
    decreases |a|
  {
    hide SectorWrite;
    if a == [] {
      assert a + b == b;
    } else {
      var w0 := SectorWrite(d, a[0]);
      var d1 := Store(d, w0);
      var wa := SectorWrites(d1, a[1..]);
      var wb := SectorWrites(Apply(d1, wa), b);
      SectorWritesSplit(d1, a[1..], b);
      assert (a + b)[1..] == a[1..] + b && (a + b)[0] == a[0];
      assert SectorWrites(d, a + b) == [w0] + (wa + wb);
      assert ([w0] + wa)[1..] == wa;
      assert Apply(d, [w0] + wa) == Apply(d1, wa);
      assert [w0] + (wa + wb) == ([w0] + wa) + wb;
    }
  }
}
