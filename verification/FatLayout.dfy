/** On-disk layout: constants, C strings in fixed buffers, and the byte encodings of the file
    allocation table and of directory tables (src/shared/header/fat32.h, src/kernel/header/filesystem/fat32.h).
    A C `char` is a Dafny `char`; numeric fields read only its low eight bits. */
module FatLayout {
  const BLOCK_SIZE := 512
  const CLUSTER_SIZE := 2048
  const CLUSTER_MAP_SIZE := 512
  const MAX_DIR_TABLE_ENTRY := 64
  const DIR_ENTRY_SIZE := 32

  const CLUSTER_0_VALUE := 0x0FFF_FFF0
  const FAT32_FAT_EMPTY_ENTRY := 0
  const FAT32_FAT_END_OF_FILE := 0x0FFF_FFFF
  const FAT_CLUSTER_NUMBER := 1
  const ROOT_CLUSTER_NUMBER := 2
  const RESERVED_ENTRY := 2
  const ATTR_SUBDIRECTORY: char := 16 as char
  const UATTR_NOT_EMPTY: char := 170 as char
  const NUL: char := '\0'

  // ---------- C strings held in buffers ----------

  /** The C string stored in a buffer: everything before the first NUL. */
  function CStr(buf: seq<char>): (r: seq<char>)
    ensures |r| <= |buf| && r == buf[..|r|] && NUL !in r
    ensures |r| < |buf| ==> buf[|r|] == NUL
  {
    if buf == [] || buf[0] == NUL then [] else [buf[0]] + CStr(buf[1..])
  }

  lemma {:induction false} CStrIs(buf: seq<char>, s: seq<char>)
    requires |s| < |buf| && buf[..|s|] == s && buf[|s|] == NUL && NUL !in s
    ensures CStr(buf) == s
  {
    if s == [] {
    } else {
      assert buf[0] == s[0] && s[0] in s;
      assert buf[1..][..|s| - 1] == s[1..];
      CStrIs(buf[1..], s[1..]);
    }
  }

  function Zeros(n: nat): (r: seq<char>)
    ensures |r| == n && forall i :: 0 <= i < n ==> r[i] == NUL
  {
    seq(n, i => NUL)
  }

  /** `strcpy(dst, src, size)` of src/shared/code/string.c:62-69, seen on the whole buffer. */
  function StrCpy(dst: seq<char>, src: seq<char>, size: nat): (r: seq<char>)
    requires 0 < size <= |dst| && NUL !in src
    ensures |r| == |dst| && CStr(r) == src[..if |src| < size then |src| else size - 1]
  {
    var n := if |src| < size then |src| else size - 1;
    var r := src[..n] + [NUL] + dst[n + 1..];
    CStrIs(r, src[..n]);
    r
  }

  // ---------- numbers as little-endian bytes ----------

  function U8(x: int): char { (x % 256) as char }

  function V8(c: char): nat { c as int % 256 }

  function U16(x: int): (r: seq<char>)
    ensures |r| == 2
  {
    [U8(x), U8(x / 256)]
  }

  function V16(s: seq<char>): (r: nat)
    requires |s| == 2
    ensures r < 0x1_0000
  {
    V8(s[0]) + 256 * V8(s[1])
  }

  function U32(x: int): (r: seq<char>)
    ensures |r| == 4
  {
    U16(x) + U16(x / 0x1_0000)
  }

  function V32(s: seq<char>): (r: nat)
    requires |s| == 4
    ensures r < 0x1_0000_0000
  {
    V16(s[..2]) + 0x1_0000 * V16(s[2..])
  }

  lemma LowBytes(x: nat)
    ensures V16(U16(x)) == x % 0x1_0000
  {
    var a, q := x / 256, x / 0x1_0000;
    assert V8(U8(x)) == x % 256 && V8(U8(a)) == a % 256;
    assert x == 256 * a + x % 256 && a == 256 * (a / 256) + a % 256;
    assert x == 0x1_0000 * (a / 256) + (256 * (a % 256) + x % 256);
    assert a / 256 == q;
  }

  lemma RoundTrip16(x: int)
    requires 0 <= x < 0x1_0000
    ensures V16(U16(x)) == x
  {
    LowBytes(x);
  }

  lemma RoundTrip32(x: int)
    requires 0 <= x < 0x1_0000_0000
    ensures V32(U32(x)) == x
  {
    hide V16, U16;
    var s, hi := U32(x), x / 0x1_0000;
    assert s[..2] == U16(x) && s[2..] == U16(hi);
    LowBytes(x);
    RoundTrip16(hi);
  }

  // ---------- directory entries ----------

  /** One 32-byte directory entry. `created` holds undelete, create_time, create_date and access_date,
      `modified` holds modified_time and modified_date; no code reads them. */
  datatype RawEntry = Entry(
    name: seq<char>, ext: seq<char>, attribute: char, user_attribute: char, created: seq<char>,
    cluster_high: nat, modified: seq<char>, cluster_low: nat, filesize: nat)

  predicate Fits(e: RawEntry) {
    && |e.name| == 8 && |e.ext| == 3 && |e.created| == 7 && |e.modified| == 4
    && e.cluster_high < 0x1_0000 && e.cluster_low < 0x1_0000 && e.filesize < 0x1_0000_0000
  }

  const ZERO_ENTRY: RawEntry := Entry(Zeros(8), Zeros(3), NUL, NUL, Zeros(7), 0, Zeros(4), 0, 0)

  type DirEntry = e: RawEntry | Fits(e) witness ZERO_ENTRY

  function EncodeEntry(e: DirEntry): (r: seq<char>)
    ensures |r| == DIR_ENTRY_SIZE
  {
    e.name + e.ext + [e.attribute, e.user_attribute] + e.created + U16(e.cluster_high)
    + e.modified + U16(e.cluster_low) + U32(e.filesize)
  }

  function DecodeEntry(s: seq<char>): DirEntry
    requires |s| == DIR_ENTRY_SIZE
  {
    Entry(s[..8], s[8..11], s[11], s[12], s[13..20], V16(s[20..22]), s[22..26], V16(s[26..28]), V32(s[28..32]))
  }

  lemma EntryRoundTrip(e: DirEntry)
    ensures DecodeEntry(EncodeEntry(e)) == e
  {
    hide U16, U32, V16, V32;
    var s := EncodeEntry(e);
    assert s[..8] == e.name;
    assert s[8..11] == e.ext;
    assert s[13..20] == e.created;
    assert s[20..22] == U16(e.cluster_high);
    assert s[22..26] == e.modified;
    assert s[26..28] == U16(e.cluster_low);
    assert s[28..32] == U32(e.filesize);
    RoundTrip16(e.cluster_high);
    RoundTrip16(e.cluster_low);
    RoundTrip32(e.filesize);
  }

  type DirTable = t: seq<DirEntry> | |t| == MAX_DIR_TABLE_ENTRY witness seq(MAX_DIR_TABLE_ENTRY, i => ZERO_ENTRY)
  type Cluster = c: seq<char> | |c| == CLUSTER_SIZE witness Zeros(CLUSTER_SIZE)
  type uint32 = x: int | 0 <= x < 0x1_0000_0000
  type FatMap = f: seq<uint32> | |f| == CLUSTER_MAP_SIZE witness seq(CLUSTER_MAP_SIZE, i => 0)

  function EncodeTable(t: DirTable): Cluster {
    seq(CLUSTER_SIZE, k requires 0 <= k < CLUSTER_SIZE => EncodeEntry(t[k / DIR_ENTRY_SIZE])[k % DIR_ENTRY_SIZE])
  }

  function DecodeTable(c: Cluster): DirTable {
    seq(MAX_DIR_TABLE_ENTRY, i requires 0 <= i < MAX_DIR_TABLE_ENTRY =>
      DecodeEntry(c[DIR_ENTRY_SIZE * i..DIR_ENTRY_SIZE * i + DIR_ENTRY_SIZE]))
  }

  lemma TableSlice(t: DirTable, i: nat)
    requires i < MAX_DIR_TABLE_ENTRY
    ensures EncodeTable(t)[DIR_ENTRY_SIZE * i..DIR_ENTRY_SIZE * i + DIR_ENTRY_SIZE] == EncodeEntry(t[i])
  {
    var c, e, lo := EncodeTable(t), EncodeEntry(t[i]), DIR_ENTRY_SIZE * i;
    forall j | 0 <= j < DIR_ENTRY_SIZE
      ensures c[lo + j] == e[j]
    {
      assert (lo + j) / DIR_ENTRY_SIZE == i && (lo + j) % DIR_ENTRY_SIZE == j;
    }
  }

  /** Writing a directory table to its cluster and reading it back is the identity. */
  lemma TableRoundTrip(t: DirTable)
    ensures DecodeTable(EncodeTable(t)) == t
  {
    forall i | 0 <= i < MAX_DIR_TABLE_ENTRY
      ensures DecodeTable(EncodeTable(t))[i] == t[i]
    {
      TableSlice(t, i);
      EntryRoundTrip(t[i]);
    }
  }

  function EncodeFat(f: FatMap): Cluster {
    seq(CLUSTER_SIZE, k requires 0 <= k < CLUSTER_SIZE => U32(f[k / 4])[k % 4])
  }

  function DecodeFat(c: Cluster): FatMap {
    seq(CLUSTER_MAP_SIZE, i requires 0 <= i < CLUSTER_MAP_SIZE => V32(c[4 * i..4 * i + 4]))
  }

  lemma FatSlice(f: FatMap, i: nat)
    requires i < CLUSTER_MAP_SIZE
    ensures EncodeFat(f)[4 * i..4 * i + 4] == U32(f[i])
  {
    hide U32;
    var c := EncodeFat(f);
    forall j | 0 <= j < 4
      ensures c[4 * i + j] == U32(f[i])[j]
    {
      assert (4 * i + j) / 4 == i && (4 * i + j) % 4 == j;
    }
  }

  /** The table cached in memory is recovered exactly from the cluster it is written to. */
  lemma FatRoundTrip(f: FatMap)
    ensures DecodeFat(EncodeFat(f)) == f
  {
    hide U32, V32, EncodeFat;
    forall i | 0 <= i < CLUSTER_MAP_SIZE
      ensures DecodeFat(EncodeFat(f))[i] == f[i]
    {
      FatSlice(f, i);
      RoundTrip32(f[i]);
    }
  }

  // ---------- reading the fields ----------

  predicate Used(e: DirEntry) { e.user_attribute == UATTR_NOT_EMPTY }

  predicate IsDir(e: DirEntry) { e.attribute == ATTR_SUBDIRECTORY }

  /** `get_cluster_from_dir_entry`: the high half is shifted right out of the result. */
  function ClusterOf(e: DirEntry): nat { e.cluster_low + e.cluster_high / 0x1_0000 }

  function SetCluster(e: DirEntry, c: nat): DirEntry {
    e.(cluster_low := c % 0x1_0000, cluster_high := c / 0x1_0000 % 0x1_0000)
  }

  /** A cluster number survives the split into two halves exactly when it fits the low half. */
  lemma ClusterOfSetCluster(e: DirEntry, c: nat)
    ensures ClusterOf(SetCluster(e, c)) == c <==> c < 0x1_0000
  {
  }

  /** `extract_83_fullname`. */
  function FullName(e: DirEntry): seq<char> {
    if !IsDir(e) && CStr(e.ext) != [] then CStr(e.name) + ['.'] + CStr(e.ext) else CStr(e.name)
  }

  /** The name fields that are read hold terminated C strings, so reading them stays inside the entry. */
  predicate Terminated(e: DirEntry) { |CStr(e.name)| < 8 && (!IsDir(e) ==> |CStr(e.ext)| < 3) }

  // ---------- fresh tables and the signature ----------

  function LinkEntry(name: seq<char>, c: nat): DirEntry
    requires NUL !in name
  {
    SetCluster(ZERO_ENTRY.(name := StrCpy(Zeros(8), name, 8), attribute := ATTR_SUBDIRECTORY,
                           user_attribute := UATTR_NOT_EMPTY), c)
  }

  function EmptySlot(i: nat, current: nat, parent: nat): DirEntry {
    if i == 0 then LinkEntry(".", current) else if i == 1 then LinkEntry("..", parent) else ZERO_ENTRY
  }

  function EmptyTable(current: nat, parent: nat): DirTable {
    seq(MAX_DIR_TABLE_ENTRY, i requires 0 <= i => EmptySlot(i, current, parent))
  }

  predicate IsLink(e: DirEntry, name: seq<char>, c: nat) {
    Used(e) && IsDir(e) && CStr(e.name) == name && ClusterOf(e) == c
  }

  lemma EmptyTableLinks(current: nat, parent: nat)
    requires current < 0x1_0000 && parent < 0x1_0000
    ensures IsLink(EmptyTable(current, parent)[0], ".", current)
    ensures IsLink(EmptyTable(current, parent)[1], "..", parent)
  {
  }

  const SIGNATURE_TEXT: seq<char> :=
    "Course          Designed by     Lab Sister ITB  Made with <3    -----------2024\n"

  function FsSignature(): (r: seq<char>)
    ensures |r| == BLOCK_SIZE
  {
    seq(BLOCK_SIZE, i requires 0 <= i =>
      if i < |SIGNATURE_TEXT| then SIGNATURE_TEXT[i]
      else if i == BLOCK_SIZE - 2 then 'O' else if i == BLOCK_SIZE - 1 then 'k' else NUL)
  }
}
