// The directory format: entries of 32 bytes, names spread over up to three long entries in
// front of a normal one, and what scanning, adding and removing entries means.
module FatDirectory {
  import opened Basics
  import opened FatFile

  type Entry = s: seq<byte> | |s| == 32 witness seq(32, _ => 0)

  const FREE_ENTRY := 0xE5
  const NO_MORE_ENTRY := 0x00
  const ATTR_LONG_NAME_MASK := 0x0F
  const ATTR_DIRECTORY := 0x10
  const ATTR_ARCHIVE := 0x20

  predicate IsEnd(e: Entry) { e[0] == NO_MORE_ENTRY }
  predicate IsFree(e: Entry) { e[0] == FREE_ENTRY }
  predicate IsLong(e: Entry) { !IsEnd(e) && !IsFree(e) && e[11] == ATTR_LONG_NAME_MASK }
  predicate IsNormal(e: Entry) { !IsEnd(e) && !IsFree(e) && e[11] != ATTR_LONG_NAME_MASK }

  // -------------------------------------------------------------------- names

  /** ASCII names of 1 to 31 characters. */
  predicate ValidName(name: seq<byte>) {
    1 <= |name| <= 31 && forall i | 0 <= i < |name| :: 0 < name[i] < 128
  }

  /** Number of long entries for a name of the given length (at most 31). */
  function NbLfn(length: nat): nat {
    if length <= 13 then 1 else if length <= 26 then 2 else 3
  }

  /** The least number of entries of 13 characters that hold the name. */
  lemma LongEntriesNeeded(length: nat)
    requires 1 <= length <= 31
    ensures 13 * (NbLfn(length) - 1) < length <= 13 * NbLfn(length)
  {
  }

  /** Byte i of a long entry holds the j-th of its 13 characters; 13 means none. */
  function CharIndex(i: nat): nat {
    if 1 <= i <= 10 && i % 2 == 1 then (i - 1) / 2
    else if 14 <= i <= 25 && i % 2 == 0 then 5 + (i - 14) / 2
    else if 28 <= i <= 31 && i % 2 == 0 then 11 + (i - 28) / 2
    else 13
  }

  function CharOffset(j: nat): (i: nat)
    requires j < 13
    ensures i < 32 && CharIndex(i) == j && i != 0 && i != 11 && i != 12
  {
    if j < 5 then 1 + 2 * j else if j < 11 then 14 + 2 * (j - 5) else 28 + 2 * (j - 11)
  }

  /** Byte i of the k-th long entry of a name that needs nb of them. */
  function LongByte(name: seq<byte>, k: nat, nb: nat, i: nat): byte
    requires 1 <= k <= 3
  {
    var c := 13 * (k - 1) + CharIndex(i);
    if i == 0 then (if nb == k then 0x40 + k else k)
    else if CharIndex(i) < 13 && c < |name| then name[c]
    else if i == 11 then ATTR_LONG_NAME_MASK
    else if i == 12 then 0xCA
    else 0
  }

  function LongEntry(name: seq<byte>, k: nat, nb: nat): Entry
    requires 1 <= k <= 3
  {
    seq(32, (i: nat) => LongByte(name, k, nb, i))
  }

  /** The characters of a long entry from the j-th on. */
  function LongNameFrom(e: Entry, j: nat): (r: seq<byte>)
    requires j <= 13
    ensures |r| <= 13 - j
    decreases 13 - j
  {
    if j == 13 || e[CharOffset(j)] == 0 || e[CharOffset(j)] == 0xFF then []
    else [e[CharOffset(j)]] + LongNameFrom(e, j + 1)
  }

  function LongName(e: Entry): seq<byte> {
    LongNameFrom(e, 0)
  }

  function Min(a: nat, b: nat): nat { if a < b then a else b }

  /** The k-th piece of a name, as a long entry holds it. */
  function Piece(name: seq<byte>, k: nat): seq<byte>
    requires 1 <= k && 13 * (k - 1) <= |name|
  {
    name[13 * (k - 1)..Min(13 * k, |name|)]
  }

  lemma {:induction false} LongEntryHoldsFrom(name: seq<byte>, k: nat, nb: nat, j: nat)
    requires ValidName(name) && 1 <= k <= 3 && j <= 13 && 13 * (k - 1) + j <= Min(13 * k, |name|)
    ensures LongNameFrom(LongEntry(name, k, nb), j) == name[13 * (k - 1) + j..Min(13 * k, |name|)]
    decreases 13 - j
  {
    var c := 13 * (k - 1) + j;
    if j < 13 {
      assert LongEntry(name, k, nb)[CharOffset(j)] == LongByte(name, k, nb, CharOffset(j));
      if c < |name| {
        LongEntryHoldsFrom(name, k, nb, j + 1);
      }
    }
  }

  /** Reading a long entry gives back the piece of the name written there. */
  lemma LongEntryHoldsPiece(name: seq<byte>, k: nat, nb: nat)
    requires ValidName(name) && 1 <= k <= 3 && 13 * (k - 1) <= |name|
    ensures LongName(LongEntry(name, k, nb)) == Piece(name, k)
    ensures nb <= 3 ==> IsLong(LongEntry(name, k, nb)) && LongEntry(name, k, nb)[0] % 4 == k
  {
    hide LongNameFrom, ValidName;
    LongEntryHoldsFrom(name, k, nb, 0);
  }

  /** C strings copied one behind the other at distance 13: a short first one hides the rest. */
  function Join(a: seq<byte>, b: seq<byte>): seq<byte> {
    if |a| < 13 then a else a[..13] + b
  }

  // ------------------------------------------------------------ normal entries

  function ToUpper(c: byte): byte {
    if 'a' as nat <= c <= 'z' as nat then c - 32 else c
  }

  function ToLower(c: byte): byte {
    if 'A' as nat <= c <= 'Z' as nat then c + 32 else c
  }

  function NormalByte(name: seq<byte>, isDir: bool, cluster: nat, size: nat, i: nat): byte {
    if i < 8 && i < |name| then ToUpper(name[i])
    else if i < 11 then 0x20
    else if i == 11 then (if isDir then ATTR_DIRECTORY else ATTR_ARCHIVE)
    else if i == 20 then cluster / 0x10000 % 256
    else if i == 21 then cluster / 0x1000000 % 256
    else if i == 26 then cluster % 256
    else if i == 27 then cluster / 0x100 % 256
    else if i == 28 then size % 256
    else if i == 29 then size / 0x100 % 256
    else if i == 30 then size / 0x10000 % 256
    else if i == 31 then size / 0x1000000 % 256
    else 0
  }

  function NormalEntry(name: seq<byte>, isDir: bool, cluster: nat, size: nat): Entry {
    seq(32, (i: nat) => NormalByte(name, isDir, cluster, size, i))
  }

  /** A field of two or four bytes, least significant byte first. */
  function ReadLittle(e: Entry, offset: nat, size: nat): nat
    requires offset + size <= 32
    decreases size
  {
    if size == 0 then 0 else e[offset] + 256 * ReadLittle(e, offset + 1, size - 1)
  }

  function EntryCluster(e: Entry): nat { ReadLittle(e, 20, 2) * 0x10000 + ReadLittle(e, 26, 2) }
  function EntrySize(e: Entry): nat { ReadLittle(e, 28, 4) }
  predicate EntryIsDir(e: Entry) { e[11] / 16 % 2 == 1 }

  lemma FourBytes(x: nat)
    requires x < 0x1_0000_0000
    ensures x % 256 + 256 * (x / 0x100 % 256) + 0x10000 * (x / 0x10000 % 256) + 0x1000000 * (x / 0x1000000 % 256) == x
  {
    var a, b, c := x / 0x100, x / 0x10000, x / 0x1000000;
    assert x == 256 * a + x % 256;
    assert a == 256 * b + a % 256;
    assert b == 256 * c + b % 256 && c == c % 256;
  }

  lemma LittleEndian2(e: Entry, o: nat)
    requires o + 2 <= 32
    ensures ReadLittle(e, o, 2) == (e[o] as int) + 256 * (e[o + 1] as int)
  {
    assert ReadLittle(e, o + 1, 1) == (e[o + 1] as int) + 256 * ReadLittle(e, o + 2, 0);
  }

  lemma LittleEndian4(e: Entry, o: nat)
    requires o + 4 <= 32
    ensures ReadLittle(e, o, 4) ==
      (e[o] as int) + 256 * (e[o + 1] as int) + 0x10000 * (e[o + 2] as int) + 0x1000000 * (e[o + 3] as int)
  {
    LittleEndian2(e, o + 2);
    assert ReadLittle(e, o + 1, 3) == (e[o + 1] as int) + 256 * ReadLittle(e, o + 2, 2);
  }

  /** A normal entry gives back any 32-bit cluster and size, and the type. */
  lemma NormalEntryFields(name: seq<byte>, isDir: bool, cluster: nat, size: nat)
    requires ValidName(name) && cluster < 0x1_0000_0000 && size < 0x1_0000_0000
    ensures var e := NormalEntry(name, isDir, cluster, size);
      IsNormal(e) && EntryCluster(e) == cluster && EntrySize(e) == size && (EntryIsDir(e) <==> isDir)
  {
    var e := NormalEntry(name, isDir, cluster, size);
    assert forall i | 0 <= i < 32 :: e[i] == NormalByte(name, isDir, cluster, size, i);
    FourBytes(cluster);
    FourBytes(size);
    LittleEndian2(e, 20);
    LittleEndian2(e, 26);
    LittleEndian4(e, 28);
  }

  /** The name of an entry without long entries: 8 characters, a dot, 3 characters. */
  function ShortPart(e: Entry, i: nat, end: nat): seq<byte>
    requires i <= end <= 11
    decreases end - i
  {
    if i == end || e[i] == 0x20 then [] else [ToLower(e[i])] + ShortPart(e, i + 1, end)
  }

  function ShortName(e: Entry): seq<byte> {
    ShortPart(e, 0, 8) + (if e[8] != 0x20 then [0x2E] + ShortPart(e, 8, 11) else [])
  }

  /** Character b as it stands in a short name: letters are upper-case there. */
  predicate Printed(b: byte, e: byte) {
    && b != 0x20 && !(0x41 <= b <= 0x5A)
    && e == if 0x61 <= b <= 0x7A then b - 0x20 else b
  }

  /** Bytes start .. end of an entry hold the text, padded with blanks. */
  ghost predicate Padded(e: Entry, start: nat, end: nat, text: seq<byte>) {
    && start + |text| <= end <= 11
    && (forall i | start <= i < start + |text| :: Printed(text[i - start], e[i]))
    && (start + |text| < end ==> e[start + |text|] == 0x20)
  }

  lemma {:induction false} PartIsText(e: Entry, start: nat, i: nat, end: nat, text: seq<byte>)
    requires Padded(e, start, end, text) && start <= i <= start + |text|
    ensures ShortPart(e, i, end) == text[i - start..]
    decreases end - i
  {
    if i < start + |text| {
      PartIsText(e, start, i + 1, end, text);
      assert text[i - start..] == [text[i - start]] + text[i + 1 - start..];
      assert Printed(text[i - start], e[i]);
    }
  }

  /** An entry that holds a stem of at most 8 characters and an extension of at most 3, both in
      upper case and padded with blanks, has the name stem, or stem.extension if there is one. */
  lemma ShortNameIs(e: Entry, stem: seq<byte>, ext: seq<byte>)
    requires Padded(e, 0, 8, stem) && Padded(e, 8, 11, ext)
    ensures ShortName(e) == if ext == [] then stem else stem + [0x2E] + ext
  {
    hide ShortPart, Padded;
    PartIsText(e, 0, 0, 8, stem);
    PartIsText(e, 8, 8, 11, ext);
    PaddedStart(e, 8, 11, stem, ext);
    assert stem[0..] == stem && ext[0..] == ext;
  }

  lemma PaddedStart(e: Entry, start: nat, end: nat, stem: seq<byte>, text: seq<byte>)
    requires Padded(e, start, end, text) && start < end && Padded(e, 0, 8, stem)
    ensures e[start] != 0x20 <==> text != []
    ensures |stem| <= 8 && |text| <= end - start
  {
    if text != [] {
      assert Printed(text[start - start], e[start]);
    }
  }

  /** The bytes of a long entry: its number, marked with 0x40 if it is the last one; the
      characters of the name at the places of the format; attribute 0x0F and checksum 0xCA. */
  lemma LongEntryBytes(name: seq<byte>, k: nat, nb: nat, j: nat)
    requires 1 <= k <= nb <= 3 && j < 13
    ensures var e := LongEntry(name, k, nb);
      var at := if j < 5 then 1 + 2 * j else if j < 11 then 4 + 2 * j else 6 + 2 * j;
      && (e[0] >= 0x40 <==> k == nb) && e[0] % 0x40 == k && e[11] == 0x0F && e[12] == 0xCA
      && e[at] == (if 13 * (k - 1) + j < |name| then name[13 * (k - 1) + j] else 0)
      && (j < 12 ==> e[at + 1] == 0 || at == 9 || at == 24)
  {
  }

  /** Four bytes, the low one first. */
  function Word(a: nat, b: nat, c: nat, d: nat): nat {
    a + 0x100 * b + 0x1_0000 * c + 0x100_0000 * d
  }

  /** The bytes of a normal entry: the first characters of the name in upper case, no
      extension, the type, and cluster and size at the places of the format, low byte first. */
  lemma NormalEntryBytes(name: seq<byte>, isDir: bool, cluster: nat, size: nat)
    requires cluster < 0x1_0000_0000 && size < 0x1_0000_0000
    ensures var e := NormalEntry(name, isDir, cluster, size);
      && (forall i | 0 <= i < 8 :: e[i] == if i < |name| then ToUpper(name[i]) else 0x20)
      && e[8] == e[9] == e[10] == 0x20 && e[11] == (if isDir then 0x10 else 0x20)
      && cluster == Word(e[26], e[27], e[20], e[21]) && size == Word(e[28], e[29], e[30], e[31])
  {
    var e := NormalEntry(name, isDir, cluster, size);
    assert forall i | 0 <= i < 32 :: e[i] == NormalByte(name, isDir, cluster, size, i);
    FourBytes(cluster);
    FourBytes(size);
  }

  /** Without its long entries, a file whose name has at most 8 characters, and no upper-case
      letter or blank, would still be found by its normal entry. */
  lemma NormalEntryHoldsStem(name: seq<byte>, isDir: bool, cluster: nat, size: nat)
    requires |name| <= 8 && forall i | 0 <= i < |name| :: name[i] != 0x20 && !(0x41 <= name[i] <= 0x5A)
    requires cluster < 0x1_0000_0000 && size < 0x1_0000_0000
    ensures ShortName(NormalEntry(name, isDir, cluster, size)) == name
  {
    var e := NormalEntry(name, isDir, cluster, size);
    NormalEntryBytes(name, isDir, cluster, size);
    hide NormalEntry, ShortName;
    assert forall i | 0 <= i < |name| :: Printed(name[i], e[i]);
    ShortNameIs(e, name, []);
  }

  // ----------------------------------------------------------------- scanning

  /** The variables of the scan: the number of long entries seen since the last normal one,
      and the pieces of name they held. */
  datatype Scan = Scan(lfn: nat, lfn1: seq<byte>, lfn2: seq<byte>, lfn3: seq<byte>)

  function Absorb(st: Scan, e: Entry): Scan {
    var s := e[0] % 4;
    var st1 := st.(lfn := if s > st.lfn then s else st.lfn);
    if s == 1 then st1.(lfn1 := LongName(e))
    else if s == 2 then st1.(lfn2 := LongName(e))
    else if s == 3 then st1.(lfn3 := LongName(e))
    else st1
  }

  function FullName(st: Scan, e: Entry): seq<byte> {
    if st.lfn == 0 then ShortName(e)
    else if st.lfn == 1 then st.lfn1
    else if st.lfn == 2 then Join(st.lfn1, st.lfn2)
    else Join(st.lfn1, Join(st.lfn2, st.lfn3))
  }

  /** A file of the directory: its entries are first .. index, the last one being normal. */
  datatype Item = Item(first: nat, index: nat, name: seq<byte>, cluster: nat, size: nat, isDir: bool)

  datatype Found = Found(dentry: nat, cluster: nat, size: nat, isDir: bool)

  /** The search of _get_child_from_parent in the entries from i on. */
  function Search(d: seq<Entry>, i: nat, st: Scan, name: seq<byte>): Option<Found>
    decreases |d| - i
  {
    if i >= |d| || IsEnd(d[i]) then None
    else if IsFree(d[i]) then Search(d, i + 1, st, name)
    else if IsLong(d[i]) then Search(d, i + 1, Absorb(st, d[i]), name)
    else if FullName(st, d[i]) == name then Some(Found(i, EntryCluster(d[i]), EntrySize(d[i]), EntryIsDir(d[i])))
    else Search(d, i + 1, st.(lfn := 0), name)
  }

  /** The number of normal entries from i on. */
  function Count(d: seq<Entry>, i: nat): nat
    decreases |d| - i
  {
    if i >= |d| || IsEnd(d[i]) then 0
    else (if IsNormal(d[i]) then 1 else 0) + Count(d, i + 1)
  }

  // ------------------------------------------- directories as lists of files

  /** n long entries, numbered n .. 1, in front of a normal one. */
  predicate LongRun(d: seq<Entry>, i: nat, n: nat) {
    && 1 <= n <= 3 && i + n < |d| && IsNormal(d[i + n])
    && IsLong(d[i]) && d[i][0] % 4 == n
    && (n >= 2 ==> IsLong(d[i + 1]) && d[i + 1][0] % 4 == n - 1)
    && (n >= 3 ==> IsLong(d[i + 2]) && d[i + 2][0] % 4 == 1)
  }

  function RunName(d: seq<Entry>, i: nat, n: nat): seq<byte>
    requires i + n < |d|
  {
    if n <= 1 then LongName(d[i])
    else if n == 2 then Join(LongName(d[i + 1]), LongName(d[i]))
    else Join(LongName(d[i + 2]), Join(LongName(d[i + 1]), LongName(d[i])))
  }

  /** From i on, long entries only occur in complete runs, as many as the name needs, and the
      end of the directory is marked. */
  predicate Tidy(d: seq<Entry>, i: nat)
    decreases |d| - i
  {
    i < |d| &&
    if IsEnd(d[i]) then true
    else if IsLong(d[i]) then
      var n := d[i][0] % 4;
      i + n < |d| && LongRun(d, i, n) && NbLfn(|RunName(d, i, n)|) == n && Tidy(d, i + n + 1)
    else Tidy(d, i + 1)
  }

  function ItemAt(d: seq<Entry>, first: nat, index: nat, name: seq<byte>): Item
    requires index < |d|
  {
    Item(first, index, name, EntryCluster(d[index]), EntrySize(d[index]), EntryIsDir(d[index]))
  }

  /** The files of a tidy directory, in order. */
  function Files(d: seq<Entry>, i: nat): seq<Item>
    requires Tidy(d, i)
    decreases |d| - i
  {
    hide LongRun, RunName, NbLfn, LongName, ShortName;
    if IsEnd(d[i]) then []
    else if IsFree(d[i]) then Files(d, i + 1)
    else if IsLong(d[i]) then
      var n := d[i][0] % 4;
      [ItemAt(d, i, i + n, RunName(d, i, n))] + Files(d, i + n + 1)
    else [ItemAt(d, i, i, ShortName(d[i]))] + Files(d, i + 1)
  }

  /** The first file with the given name. */
  function Named(fs: seq<Item>, name: seq<byte>): Option<Found> {
    if fs == [] then None
    else if fs[0].name == name then Some(Found(fs[0].index, fs[0].cluster, fs[0].size, fs[0].isDir))
    else Named(fs[1..], name)
  }

  lemma RunSearch(d: seq<Entry>, i: nat, n: nat, st: Scan, name: seq<byte>)
    requires LongRun(d, i, n) && st.lfn == 0
    ensures var st1 := (match n case 1 => Absorb(st, d[i])
                        case 2 => Absorb(Absorb(st, d[i]), d[i + 1])
                        case _ => Absorb(Absorb(Absorb(st, d[i]), d[i + 1]), d[i + 2]));
      && FullName(st1, d[i + n]) == RunName(d, i, n)
      && Search(d, i, st, name) == Search(d, i + n, st1, name)
  {
    hide LongName, Join, ShortName;
    if n >= 2 {
      assert Search(d, i, st, name) == Search(d, i + 1, Absorb(st, d[i]), name);
      var st2 := Absorb(st, d[i]);
      if n == 3 {
        assert Search(d, i + 1, st2, name) == Search(d, i + 2, Absorb(st2, d[i + 1]), name);
      }
    }
  }

  /** The scan with its mutable pieces of names is the search for the first file of that
      name in the list of files. */
  lemma {:induction false} SearchIsNamed(d: seq<Entry>, i: nat, st: Scan, name: seq<byte>)
    requires Tidy(d, i) && st.lfn == 0
    ensures Search(d, i, st, name) == Named(Files(d, i), name)
    decreases |d| - i
  {
    hide Files, LongName, Join, ShortName, RunName, FullName, Absorb, EntryCluster, EntrySize, EntryIsDir, Named, NbLfn;
    if IsEnd(d[i]) {
      NoFileAtEnd(d, i);
      NoneNamed(name);
    } else if IsFree(d[i]) {
      NextAfterFree(d, i);
      SearchIsNamed(d, i + 1, st, name);
    } else {
      var n := FirstFile(d, i);
      if IsLong(d[i]) {
        RunSearch(d, i, n, st, name);
        var st1 := if n == 1 then Absorb(st, d[i]) else if n == 2 then Absorb(Absorb(st, d[i]), d[i + 1])
                   else Absorb(Absorb(Absorb(st, d[i]), d[i + 1]), d[i + 2]);
        SearchIsNamed(d, i + n + 1, st1.(lfn := 0), name);
        NamedCons(ItemAt(d, i, i + n, RunName(d, i, n)), Files(d, i + n + 1), name);
      } else {
        SearchIsNamed(d, i + 1, st.(lfn := 0), name);
        NamedCons(ItemAt(d, i, i, ShortName(d[i])), Files(d, i + 1), name);
        ShortIsFull(st, d[i]);
      }
    }
  }

  lemma NoneNamed(name: seq<byte>)
    ensures Named([], name) == None
  {
  }

  lemma ShortIsFull(st: Scan, e: Entry)
    requires st.lfn == 0
    ensures FullName(st, e) == ShortName(e)
  {
  }

  lemma NamedCons(x: Item, fs: seq<Item>, name: seq<byte>)
    ensures Named([x] + fs, name) == if x.name == name then Some(Found(x.index, x.cluster, x.size, x.isDir))
            else Named(fs, name)
  {
    assert ([x] + fs)[1..] == fs;
  }

  lemma {:induction false} CountIsFiles(d: seq<Entry>, i: nat)
    requires Tidy(d, i)
    ensures Count(d, i) == |Files(d, i)|
    decreases |d| - i
  {
    hide LongName, Join, ShortName, RunName, EntryCluster, EntrySize, EntryIsDir, NbLfn;
    if IsEnd(d[i]) {
    } else if IsLong(d[i]) {
      var n := d[i][0] % 4;
      RunCount(d, i, n);
      CountIsFiles(d, i + n + 1);
    } else {
      CountIsFiles(d, i + 1);
    }
  }

  lemma RunCount(d: seq<Entry>, i: nat, n: nat)
    requires LongRun(d, i, n)
    ensures Count(d, i) == 1 + Count(d, i + n + 1)
  {
    assert Count(d, i) == Count(d, i + 1);
    assert n >= 2 ==> Count(d, i + 1) == Count(d, i + 2);
    assert n >= 3 ==> Count(d, i + 2) == Count(d, i + 3);
    assert Count(d, i + n) == 1 + Count(d, i + n + 1);
  }

  // ------------------------------------------------------------ adding a file

  /** The first entry from i on that marks the end of the directory. */
  function FirstEnd(d: seq<Entry>, i: nat): (r: nat)
    ensures i <= |d| ==> i <= r <= |d| && (r < |d| ==> IsEnd(d[r]))
    ensures forall j | i <= j < r && j < |d| :: !IsEnd(d[j])
    decreases |d| - i
  {
    if i >= |d| || IsEnd(d[i]) then i else FirstEnd(d, i + 1)
  }

  /** The entry at index e after a file has been added at the end mark s. */
  function AddedAt(d: seq<Entry>, s: nat, name: seq<byte>, isDir: bool, cluster: nat, size: nat, e: nat): Entry
    requires |name| <= 31 && e < |d|
  {
    var nb := NbLfn(|name|);
    if s <= e < s + nb then LongEntry(name, nb - (e - s), nb)
    else if e == s + nb then NormalEntry(name, isDir, cluster, size)
    else if e == s + nb + 1 then d[e][0 := NO_MORE_ENTRY]
    else d[e]
  }

  function Added(d: seq<Entry>, s: nat, name: seq<byte>, isDir: bool, cluster: nat, size: nat): (r: seq<Entry>)
    requires |name| <= 31
    ensures |r| == |d|
  {
    seq(|d|, (e: nat) requires e < |d| => AddedAt(d, s, name, isDir, cluster, size, e))
  }

  /** What an add writes, from the old end mark s on: the long entries, the last piece of the
      name first, the normal entry, and the new end mark; nothing else changes. */
  lemma AddedOrder(d: seq<Entry>, s: nat, name: seq<byte>, isDir: bool, cluster: nat, size: nat, e: nat)
    requires |name| <= 31 && s + NbLfn(|name|) + 1 < |d| && e < |d|
    ensures var r, nb := Added(d, s, name, isDir, cluster, size), NbLfn(|name|);
      && (s <= e < s + nb ==> r[e][0] % 0x40 == s + nb - e && (r[e][0] >= 0x40 <==> e == s) && r[e][11] == 0x0F)
      && (e == s + nb ==> r[e] == NormalEntry(name, isDir, cluster, size))
      && (e == s + nb + 1 ==> r[e][0] == 0 && r[e][1..] == d[e][1..])
      && (e < s || e > s + nb + 1 ==> r[e] == d[e])
  {
    var nb := NbLfn(|name|);
    if s <= e < s + nb {
      LongEntryBytes(name, nb - (e - s), nb, 0);
    }
  }

  /** Both directories hold the same entries from i to j. */
  predicate Agree(d: seq<Entry>, d': seq<Entry>, i: nat, j: nat) {
    |d| == |d'| && forall e | i <= e < j && e < |d| :: d'[e] == d[e]
  }

  lemma SameRun(d: seq<Entry>, d': seq<Entry>, i: nat, n: nat)
    requires i + n < |d| && Agree(d, d', i, i + n + 1) && n <= 3
    ensures LongRun(d', i, n) <==> LongRun(d, i, n)
    ensures RunName(d', i, n) == RunName(d, i, n)
  {
    hide LongName, Join;
  }

  lemma RunHasNoEnd(d: seq<Entry>, i: nat, n: nat)
    requires LongRun(d, i, n)
    ensures FirstEnd(d, i) == FirstEnd(d, i + n + 1)
  {
    assert FirstEnd(d, i) == FirstEnd(d, i + 1);
    assert n >= 2 ==> FirstEnd(d, i + 1) == FirstEnd(d, i + 2);
    assert n >= 3 ==> FirstEnd(d, i + 2) == FirstEnd(d, i + 3);
    assert FirstEnd(d, i + n) == FirstEnd(d, i + n + 1);
  }

  function NewItem(s: nat, name: seq<byte>, isDir: bool, cluster: nat, size: nat): Item
    requires |name| <= 31
  {
    Item(s, s + NbLfn(|name|), name, cluster, size, isDir)
  }

  lemma PiecesJoin(name: seq<byte>)
    requires 1 <= |name| <= 31
    ensures NbLfn(|name|) == 1 ==> Piece(name, 1) == name
    ensures NbLfn(|name|) == 2 ==> Join(Piece(name, 1), Piece(name, 2)) == name
    ensures NbLfn(|name|) == 3 ==> Join(Piece(name, 1), Join(Piece(name, 2), Piece(name, 3))) == name
  {
  }

  /** The entries written for a name form a complete run that spells the name. */
  lemma NewRun(d: seq<Entry>, s: nat, name: seq<byte>, isDir: bool, cluster: nat, size: nat)
    requires ValidName(name) && cluster < 0x1_0000_0000 && size < 0x1_0000_0000
    requires s + NbLfn(|name|) + 1 < |d|
    ensures var d', n := Added(d, s, name, isDir, cluster, size), NbLfn(|name|);
      && LongRun(d', s, n) && RunName(d', s, n) == name && IsLong(d'[s]) && d'[s][0] % 4 == n
      && IsEnd(d'[s + n + 1]) && ItemAt(d', s, s + n, name) == NewItem(s, name, isDir, cluster, size)
  {
    hide LongName, Join, EntryCluster, EntrySize, EntryIsDir, Piece, LongEntry, NormalEntry;
    var d', n := Added(d, s, name, isDir, cluster, size), NbLfn(|name|);
    NormalEntryFields(name, isDir, cluster, size);
    PiecesJoin(name);
    assert d'[s + n] == NormalEntry(name, isDir, cluster, size);
    LongEntryHoldsPiece(name, n, n);
    assert d'[s] == LongEntry(name, n, n);
    if n >= 2 {
      LongEntryHoldsPiece(name, n - 1, n);
      assert d'[s + 1] == LongEntry(name, n - 1, n);
    }
    if n == 3 {
      LongEntryHoldsPiece(name, 1, n);
      assert d'[s + 2] == LongEntry(name, 1, n);
    }
  }

  lemma AgreeInside(d: seq<Entry>, d': seq<Entry>, i: nat, j: nat, n: nat)
    requires Agree(d, d', 0, n) && i <= j <= n
    ensures Agree(d, d', i, j)
  {
  }

  /** The entries of the first file: n long ones, if any, and a normal one. */
  lemma FirstFile(d: seq<Entry>, i: nat) returns (n: nat)
    requires Tidy(d, i) && !IsEnd(d[i]) && !IsFree(d[i])
    ensures n <= 3 && i + n < |d| && Tidy(d, i + n + 1) && n == if IsLong(d[i]) then d[i][0] % 4 else 0
    ensures var x := ItemAt(d, i, i + n, if n == 0 then ShortName(d[i]) else RunName(d, i, n));
      Files(d, i) == [x] + Files(d, i + n + 1)
  {
    hide LongName, Join, ShortName, RunName, EntryCluster, EntrySize, EntryIsDir;
    n := if IsLong(d[i]) then d[i][0] % 4 else 0;
  }

  lemma SameFirstTidy(d: seq<Entry>, d': seq<Entry>, i: nat, n: nat)
    requires Tidy(d, i) && !IsEnd(d[i]) && !IsFree(d[i]) && n == if IsLong(d[i]) then d[i][0] % 4 else 0
    requires i + n < |d| && Agree(d, d', i, i + n + 1) && Tidy(d', i + n + 1)
    ensures Tidy(d', i)
  {
    hide LongName, Join, ShortName, RunName, LongRun, NbLfn;
    SameRun(d, d', i, n);
    assert d'[i] == d[i];
  }

  /** The first file stays the same as long as its own entries do. */
  lemma SameFirstFile(d: seq<Entry>, d': seq<Entry>, i: nat, n: nat)
    requires Tidy(d, i) && !IsEnd(d[i]) && !IsFree(d[i]) && n == if IsLong(d[i]) then d[i][0] % 4 else 0
    requires i + n < |d| && Agree(d, d', i, i + n + 1) && Tidy(d', i + n + 1)
    ensures Tidy(d', i) && Files(d, i) != [] && Files(d', i) == [Files(d, i)[0]] + Files(d', i + n + 1)
  {
    hide LongName, Join, ShortName, RunName, EntryCluster, EntrySize, EntryIsDir, LongRun, NbLfn, Tidy, Files;
    assert i < |d| && d'[i] == d[i] && d'[i + n] == d[i + n];
    SameFirstTidy(d, d', i, n);
    SameRun(d, d', i, n);
    var _ := FirstFile(d, i);
    var _ := FirstFile(d', i);
  }

  lemma NextAfterFree(d: seq<Entry>, i: nat)
    requires Tidy(d, i) && !IsEnd(d[i]) && IsFree(d[i])
    ensures Tidy(d, i + 1) && Files(d, i) == Files(d, i + 1)
  {
  }

  lemma SameFree(d: seq<Entry>, d': seq<Entry>, i: nat)
    requires i < |d| && IsFree(d[i]) && Agree(d, d', i, i + 1) && Tidy(d', i + 1)
    ensures Tidy(d', i) && Files(d', i) == Files(d', i + 1)
  {
    assert d'[i] == d[i];
  }

  /** Adding a file at the end mark appends it to the list of files. */
  lemma {:induction false} AddAppends(d: seq<Entry>, i: nat, s: nat, name: seq<byte>, isDir: bool, cluster: nat,
                                      size: nat)
    requires Tidy(d, i) && s == FirstEnd(d, i)
    requires ValidName(name) && cluster < 0x1_0000_0000 && size < 0x1_0000_0000
    requires s + NbLfn(|name|) + 1 < |d|
    ensures var d' := Added(d, s, name, isDir, cluster, size);
      Tidy(d', i) && Files(d', i) == Files(d, i) + [NewItem(s, name, isDir, cluster, size)]
    decreases |d| - i
  {
    hide Tidy, Files, Agree, IsFree, IsLong, IsEnd, LongRun, RunName, ShortName, FirstEnd, Added, NbLfn, NewItem;
    var d' := Added(d, s, name, isDir, cluster, size);
    TidyIsInside(d, i);
    AddedBefore(d, s, name, isDir, cluster, size);
    if IsEnd(d[i]) {
      EndIsFirst(d, i);
      NoFileAtEnd(d, i);
      AddedAlone(d, s, name, isDir, cluster, size);
    } else if IsFree(d[i]) {
      NextAfterFree(d, i);
      NextEnd(d, i);
      AddAppends(d, i + 1, s, name, isDir, cluster, size);
      EndIsAfter(d, i + 1);
      AgreeInside(d, d', i, i + 1, s);
      SameFree(d, d', i);
    } else {
      var n := FirstFile(d, i);
      FileHasNoEnd(d, i, n);
      AddAppends(d, i + n + 1, s, name, isDir, cluster, size);
      EndIsAfter(d, i + n + 1);
      AgreeInside(d, d', i, i + n + 1, s);
      SameFirstFile(d, d', i, n);
      assert Files(d, i) == [Files(d, i)[0]] + Files(d, i + n + 1);
    }
  }

  lemma TidyIsInside(d: seq<Entry>, i: nat)
    requires Tidy(d, i)
    ensures i < |d|
  {
  }

  lemma NoFileAtEnd(d: seq<Entry>, i: nat)
    requires Tidy(d, i) && IsEnd(d[i])
    ensures Files(d, i) == []
  {
  }

  lemma FileHasNoEnd(d: seq<Entry>, i: nat, n: nat)
    requires Tidy(d, i) && !IsEnd(d[i]) && !IsFree(d[i]) && n == if IsLong(d[i]) then d[i][0] % 4 else 0
    ensures FirstEnd(d, i) == FirstEnd(d, i + n + 1)
  {
    hide LongName, Join, ShortName, RunName, FirstEnd, LongRun;
    if n == 0 {
      NextEnd(d, i);
    } else {
      RunHasNoEnd(d, i, n);
    }
  }

  lemma AddedBefore(d: seq<Entry>, s: nat, name: seq<byte>, isDir: bool, cluster: nat, size: nat)
    requires |name| <= 31
    ensures Agree(d, Added(d, s, name, isDir, cluster, size), 0, s)
  {
  }

  lemma EndIsAfter(d: seq<Entry>, i: nat)
    requires i <= |d|
    ensures i <= FirstEnd(d, i)
  {
  }

  /** At the end mark itself, the new file is the only one. */
  lemma AddedAlone(d: seq<Entry>, s: nat, name: seq<byte>, isDir: bool, cluster: nat, size: nat)
    requires ValidName(name) && cluster < 0x1_0000_0000 && size < 0x1_0000_0000
    requires s + NbLfn(|name|) + 1 < |d|
    ensures var d' := Added(d, s, name, isDir, cluster, size);
      Tidy(d', s) && Files(d', s) == [NewItem(s, name, isDir, cluster, size)]
  {
    hide LongName, Join, ShortName, RunName, LongRun, EntryCluster, EntrySize, EntryIsDir, Added;
    NewRun(d, s, name, isDir, cluster, size);
    var d', n := Added(d, s, name, isDir, cluster, size), NbLfn(|name|);
    assert Tidy(d', s + n + 1) && Files(d', s + n + 1) == [];
  }

  lemma EndIsFirst(d: seq<Entry>, i: nat)
    requires i < |d| && IsEnd(d[i])
    ensures FirstEnd(d, i) == i
  {
  }

  lemma NextEnd(d: seq<Entry>, i: nat)
    requires i < |d| && !IsEnd(d[i])
    ensures FirstEnd(d, i) == FirstEnd(d, i + 1)
  {
  }

  // ---------------------------------------------------------- removing a file

  /** Entries a .. b have been marked free. */
  function Wiped(d: seq<Entry>, a: nat, b: nat): (r: seq<Entry>)
    ensures |r| == |d|
  {
    seq(|d|, (e: nat) requires e < |d| => if a <= e <= b then d[e][0 := FREE_ENTRY] else d[e])
  }

  lemma {:induction false} SameFiles(d: seq<Entry>, d': seq<Entry>, i: nat)
    requires Tidy(d, i) && Agree(d, d', i, |d|)
    ensures Tidy(d', i) && Files(d', i) == Files(d, i)
    decreases |d| - i
  {
    hide LongName, Join, ShortName, RunName, EntryCluster, EntrySize, EntryIsDir;
    if IsEnd(d[i]) {
    } else if IsLong(d[i]) {
      var n := d[i][0] % 4;
      SameRun(d, d', i, n);
      SameFiles(d, d', i + n + 1);
    } else {
      SameFiles(d, d', i + 1);
    }
  }

  lemma {:induction false} FilesAreInside(d: seq<Entry>, i: nat, x: Item)
    requires Tidy(d, i) && x in Files(d, i)
    ensures i <= x.first <= x.index < |d| && IsNormal(d[x.index])
    ensures x.first < x.index ==> LongRun(d, x.first, x.index - x.first) && x.index - x.first == NbLfn(|x.name|)
    ensures x.first == x.index ==> |x.name| <= 12
    ensures x == ItemAt(d, x.first, x.index, x.name)
    decreases |d| - i
  {
    hide LongName, Join, ShortName, RunName, EntryCluster, EntrySize, EntryIsDir;
    if !IsEnd(d[i]) {
      if IsLong(d[i]) {
        var n := d[i][0] % 4;
        if x in Files(d, i + n + 1) {
          FilesAreInside(d, i + n + 1, x);
        }
      } else {
        ShortIsShort(d[i]);
        if x in Files(d, i + 1) {
          FilesAreInside(d, i + 1, x);
        }
      }
    }
  }

  lemma {:induction false} ShortPartBound(e: Entry, i: nat, end: nat)
    requires i <= end <= 11
    ensures |ShortPart(e, i, end)| <= end - i
    decreases end - i
  {
    if i < end && e[i] != 0x20 {
      ShortPartBound(e, i + 1, end);
    }
  }

  lemma ShortIsShort(e: Entry)
    ensures |ShortName(e)| <= 12
  {
    ShortPartBound(e, 0, 8);
    ShortPartBound(e, 8, 11);
  }

  /** The entry before a file is neither a long entry in use nor the end mark. */
  lemma {:induction false} NoLongBefore(d: seq<Entry>, i: nat, x: Item)
    requires Tidy(d, i) && x in Files(d, i) && (0 < i <= |d| ==> !IsLong(d[i - 1]) && !IsEnd(d[i - 1]))
    ensures x.first <= |d| && (x.first > 0 ==> !IsLong(d[x.first - 1]) && !IsEnd(d[x.first - 1]))
    decreases |d| - i
  {
    hide LongName, Join, ShortName, RunName, EntryCluster, EntrySize, EntryIsDir;
    if !IsEnd(d[i]) {
      if IsLong(d[i]) {
        var n := d[i][0] % 4;
        if x in Files(d, i + n + 1) {
          NoLongBefore(d, i + n + 1, x);
        }
      } else if x in Files(d, i + 1) {
        NoLongBefore(d, i + 1, x);
      }
    }
  }

  lemma WipedRun(d: seq<Entry>, a: nat, b: nat)
    requires a <= b < |d| && b - a <= 3 && Tidy(Wiped(d, a, b), b + 1)
    ensures var d' := Wiped(d, a, b); Tidy(d', a) && Files(d', a) == Files(d', b + 1)
  {
    hide LongName, Join, ShortName, RunName, EntryCluster, EntrySize, EntryIsDir, LongRun;
    var d' := Wiped(d, a, b);
    assert forall e | a <= e <= b :: IsFree(d'[e]);
    assert Tidy(d', b) && Files(d', b) == Files(d', b + 1);
    if b >= a + 1 { assert Tidy(d', b - 1) && Files(d', b - 1) == Files(d', b); }
    if b >= a + 2 { assert Tidy(d', b - 2) && Files(d', b - 2) == Files(d', b - 1); }
    if b >= a + 3 { assert Tidy(d', b - 3) && Files(d', b - 3) == Files(d', b - 2); }
  }

  lemma WipedOutside(d: seq<Entry>, a: nat, b: nat)
    ensures Agree(d, Wiped(d, a, b), 0, a) && Agree(d, Wiped(d, a, b), b + 1, |d|)
  {
  }

  /** Wiping the entries of the first file leaves the others. */
  lemma WipeFirst(d: seq<Entry>, i: nat)
    requires Tidy(d, i) && Files(d, i) != [] && !IsEnd(d[i]) && !IsFree(d[i])
    ensures var x := Files(d, i)[0];
      var d' := Wiped(d, x.first, x.index);
      Tidy(d', i) && Files(d', i) == Files(d, i)[1..]
  {
    hide Tidy, Files, Wiped, Agree, IsFree, IsLong, IsEnd, LongRun, RunName, ShortName, IsNormal, EntrySize;
    hide EntryCluster, EntryIsDir, NbLfn;
    var x := Files(d, i)[0];
    var n := FirstFile(d, i);
    WipedOutside(d, x.first, x.index);
    SameFiles(d, Wiped(d, x.first, x.index), i + n + 1);
    WipedRun(d, i, i + n);
  }

  /** Wiping the entries of a file removes it from the list of files. */
  lemma {:induction false} WipeRemoves(d: seq<Entry>, i: nat, k: nat)
    requires Tidy(d, i) && k < |Files(d, i)|
    ensures var x := Files(d, i)[k];
      var d' := Wiped(d, x.first, x.index);
      Tidy(d', i) && Files(d', i) == Files(d, i)[..k] + Files(d, i)[k + 1..]
    decreases |d| - i
  {
    hide Tidy, Files, Wiped, Agree, IsFree, IsLong, IsEnd, LongRun, RunName, ShortName, IsNormal, ItemAt;
    var x := Files(d, i)[k];
    var d' := Wiped(d, x.first, x.index);
    NotAtEnd(d, i);
    WipedOutside(d, x.first, x.index);
    if IsFree(d[i]) {
      NextAfterFree(d, i);
      FilesAreInside(d, i + 1, x);
      WipeRemoves(d, i + 1, k);
      AgreeInside(d, d', i, i + 1, x.first);
      SameFree(d, d', i);
    } else if k == 0 {
      WipeFirst(d, i);
      assert Files(d, i)[..0] == [];
    } else {
      var n := FirstFile(d, i);
      var rest := Files(d, i + n + 1);
      assert x == rest[k - 1];
      FilesAreInside(d, i + n + 1, x);
      WipeRemoves(d, i + n + 1, k - 1);
      AgreeInside(d, d', i, i + n + 1, x.first);
      SameFirstFile(d, d', i, n);
      WipedCons(Files(d, i)[0], rest, k - 1);
    }
  }

  lemma NotAtEnd(d: seq<Entry>, i: nat)
    requires Tidy(d, i) && Files(d, i) != []
    ensures i < |d| && !IsEnd(d[i])
  {
  }

  lemma WipedCons(x: Item, rest: seq<Item>, k: nat)
    requires k < |rest|
    ensures ([x] + rest)[..k + 1] + ([x] + rest)[k + 2..] == [x] + (rest[..k] + rest[k + 1..])
  {
  }

  // -------------------------------------------------------------- main results

  /** What the search for a name finds in a directory. */
  function LookupName(d: seq<Entry>, name: seq<byte>): Option<Found> {
    Search(d, 0, Scan(0, [], [], []), name)
  }

  predicate UniqueNames(fs: seq<Item>) {
    forall i, j | 0 <= i < j < |fs| :: fs[i].name != fs[j].name
  }

  lemma {:induction false} NamedAppend(fs: seq<Item>, x: Item, name: seq<byte>)
    ensures Named(fs + [x], name) ==
            if Named(fs, name).Some? then Named(fs, name)
            else if x.name == name then Some(Found(x.index, x.cluster, x.size, x.isDir)) else None
  {
    if fs == [] {
      assert fs + [x] == [x] + [];
      NamedCons(x, [], name);
    } else {
      assert fs + [x] == [fs[0]] + (fs[1..] + [x]);
      NamedCons(fs[0], fs[1..] + [x], name);
      NamedAppend(fs[1..], x, name);
    }
  }

  lemma {:induction false} NamedNone(fs: seq<Item>, name: seq<byte>)
    ensures Named(fs, name).None? <==> forall i | 0 <= i < |fs| :: fs[i].name != name
  {
    if fs != [] {
      NamedNone(fs[1..], name);
      assert forall i | 1 <= i < |fs| :: fs[i] == fs[1..][i - 1];
    }
  }

  lemma {:induction false} NamedRemove(fs: seq<Item>, k: nat, name: seq<byte>)
    requires k < |fs| && fs[k].name != name
    ensures Named(fs[..k] + fs[k + 1..], name) == Named(fs, name)
  {
    if k == 0 {
      assert fs[..0] + fs[1..] == fs[1..];
    } else {
      assert fs[..k] + fs[k + 1..] == [fs[0]] + (fs[1..][..k - 1] + fs[1..][k..]);
      NamedCons(fs[0], fs[1..][..k - 1] + fs[1..][k..], name);
      NamedRemove(fs[1..], k - 1, name);
    }
  }

  /** After a file has been added, a search for it gives back its cluster, size and type and
      the index of its normal entry; every other search gives what it gave before; there is
      one more file. The names stay unique. */
  lemma AddThenLookup(d: seq<Entry>, name: seq<byte>, isDir: bool, cluster: nat, size: nat, other: seq<byte>)
    requires Tidy(d, 0) && ValidName(name) && cluster < 0x1_0000_0000 && size < 0x1_0000_0000
    requires FirstEnd(d, 0) + NbLfn(|name|) + 1 < |d| && LookupName(d, name).None?
    ensures var s := FirstEnd(d, 0); var d' := Added(d, s, name, isDir, cluster, size);
      && Tidy(d', 0) && LookupName(d', name) == Some(Found(s + NbLfn(|name|), cluster, size, isDir))
      && (other != name ==> LookupName(d', other) == LookupName(d, other))
      && Count(d', 0) == Count(d, 0) + 1
      && (UniqueNames(Files(d, 0)) ==> UniqueNames(Files(d', 0)))
  {
    hide Search, Count, Added, Tidy, Files, FirstEnd, Named;
    var s := FirstEnd(d, 0);
    var d', x := Added(d, s, name, isDir, cluster, size), NewItem(s, name, isDir, cluster, size);
    AddAppends(d, 0, s, name, isDir, cluster, size);
    SearchIsNamed(d, 0, Scan(0, [], [], []), name);
    SearchIsNamed(d', 0, Scan(0, [], [], []), name);
    SearchIsNamed(d, 0, Scan(0, [], [], []), other);
    SearchIsNamed(d', 0, Scan(0, [], [], []), other);
    NamedAppend(Files(d, 0), x, name);
    NamedAppend(Files(d, 0), x, other);
    CountIsFiles(d, 0);
    CountIsFiles(d', 0);
    NamedNone(Files(d, 0), name);
  }

  /** After the k-th file has been removed, a search for it fails, every other search gives
      what it gave before, and there is one file less. */
  lemma RemoveThenLookup(d: seq<Entry>, k: nat, other: seq<byte>)
    requires Tidy(d, 0) && k < |Files(d, 0)| && UniqueNames(Files(d, 0))
    ensures var x := Files(d, 0)[k]; var d' := Wiped(d, x.first, x.index);
      && Tidy(d', 0) && UniqueNames(Files(d', 0)) && LookupName(d', x.name).None?
      && (other != x.name ==> LookupName(d', other) == LookupName(d, other))
      && Count(d', 0) == Count(d, 0) - 1
  {
    hide Search, Count, Wiped, Tidy, Files, Named;
    var x := Files(d, 0)[k];
    var d' := Wiped(d, x.first, x.index);
    WipeRemoves(d, 0, k);
    SearchIsNamed(d', 0, Scan(0, [], [], []), x.name);
    SearchIsNamed(d, 0, Scan(0, [], [], []), other);
    SearchIsNamed(d', 0, Scan(0, [], [], []), other);
    NamedNone(Files(d', 0), x.name);
    if other != x.name {
      NamedRemove(Files(d, 0), k, other);
    }
    CountIsFiles(d, 0);
    CountIsFiles(d', 0);
  }

  /** The index that _add_dir_entry stores in the new inode: it does not follow the change of
      cluster, so it is that of the normal entry exactly when this one lies in the cluster
      where the end mark was found. */
  function RecordedDentry(s: nat, nb: nat): int {
    if s % 128 + nb < 128 then s + nb else s + nb - 128
  }

  lemma DentryIsRight(s: nat, name: seq<byte>, isDir: bool, cluster: nat, size: nat)
    requires ValidName(name)
    ensures RecordedDentry(s, NbLfn(|name|)) == NewItem(s, name, isDir, cluster, size).index <==>
            (s + NbLfn(|name|)) / 128 == s / 128
  {
    var nb := NbLfn(|name|);
    assert s == s / 128 * 128 + s % 128;
  }

  /** With the end mark in the last entry of the first cluster, index 0 is recorded, while the
      normal entry is number 128, the first one of the second cluster. */
  lemma DentryCanBeWrong()
    ensures ValidName([65]) && NewItem(127, [65], false, 0, 0).index == 128 && RecordedDentry(127, NbLfn(|[65]|)) == 0
  {
  }

  // ------------------------------------------------------------- erasing backwards

  /** In front of entry e, up to `left` long entries are marked free, until another one. */
  function EraseBack(d: seq<Entry>, e: nat, left: nat): (r: seq<Entry>)
    requires e < |d|
    ensures |r| == |d|
    decreases left
  {
    if left == 0 || e == 0 || d[e - 1][11] != ATTR_LONG_NAME_MASK then d
    else EraseBack(d[e - 1 := d[e - 1][0 := FREE_ENTRY]], e - 1, left - 1)
  }

  /** Entry e and the long entries in front of it are marked free. */
  function Erased(d: seq<Entry>, e: nat, nb: nat): seq<Entry>
    requires e < |d|
  {
    EraseBack(d[e := d[e][0 := FREE_ENTRY]], e, nb)
  }

  lemma EraseBackStep(d: seq<Entry>, e: nat, n: nat)
    requires e < |d|
    ensures EraseBack(d, e, n) ==
            if n == 0 || e == 0 || d[e - 1][11] != ATTR_LONG_NAME_MASK then d
            else EraseBack(d[e - 1 := d[e - 1][0 := FREE_ENTRY]], e - 1, n - 1)
  {
  }

  lemma WipeOne(d: seq<Entry>, b: nat)
    requires b < |d|
    ensures d[b := d[b][0 := FREE_ENTRY]] == Wiped(d, b, b)
  {
  }

  lemma WipeMore(d: seq<Entry>, a: nat, b: nat)
    requires 0 < a <= b < |d|
    ensures Wiped(d, a, b)[a - 1] == d[a - 1]
    ensures Wiped(d, a, b)[a - 1 := d[a - 1][0 := FREE_ENTRY]] == Wiped(d, a - 1, b)
  {
  }

  /** The file x of the directory d, whose entries are to be wiped. */
  ghost predicate IsFile(d: seq<Entry>, x: Item) {
    Tidy(d, 0) && x in Files(d, 0)
  }

  /** What the loop finds in front of the entries of a file: its own long entries, and then
      no long entry in use. */
  lemma EntriesBefore(d: seq<Entry>, x: Item, e: nat)
    requires IsFile(d, x) && x.first <= e <= x.index && (e > x.first || e > 0)
    ensures 0 < e < |d| && x.index < |d|
    ensures e > x.first ==> d[e - 1][11] == ATTR_LONG_NAME_MASK
    ensures e == x.first && d[e - 1][11] == ATTR_LONG_NAME_MASK ==> d[e - 1][0] == FREE_ENTRY
  {
    hide LongName, Join, ShortName, RunName;
    FilesAreInside(d, 0, x);
    NoLongBefore(d, 0, x);
  }

  lemma FileFits(d: seq<Entry>, x: Item)
    requires IsFile(d, x)
    ensures x.first <= x.index < |d|
    ensures if x.first < x.index then x.index - x.first == NbLfn(|x.name|) else NbLfn(|x.name|) == 1
  {
    FilesAreInside(d, 0, x);
  }

  /** After some steps of the loop: long entries left to wipe, position reached. */
  ghost predicate WipedTo(d: seq<Entry>, d0: seq<Entry>, x: Item, e: nat, left: nat)
    requires x.index < |d0|
  {
    if x.first < x.index then x.first <= e <= x.index && left == e - x.first && d == Wiped(d0, e, x.index)
    else d == Wiped(d0, x.index, x.index) && left <= 1 && (left == 1 ==> e == x.index)
  }

  lemma WipeStep(d: seq<Entry>, d0: seq<Entry>, x: Item, e: nat, left: nat)
    requires IsFile(d0, x) && x.index < |d0| && WipedTo(d, d0, x, e, left) && left > 0 && 0 < e < |d0| && |d| == |d0|
    ensures d[e - 1][11] == ATTR_LONG_NAME_MASK ==>
            WipedTo(d[e - 1 := d[e - 1][0 := FREE_ENTRY]], d0, x, e - 1, left - 1)
    ensures d[e - 1][11] != ATTR_LONG_NAME_MASK ==> d == Wiped(d0, x.first, x.index)
  {
    hide IsFile;
    FileFits(d0, x);
    EntriesBefore(d0, x, e);
    WipeMore(d0, e, x.index);
    if x.first == x.index && d[e - 1][11] == ATTR_LONG_NAME_MASK {
      assert d[e - 1][0 := FREE_ENTRY] == d[e - 1];
      assert d[e - 1 := d[e - 1]] == d;
    }
  }

  lemma WipeEnds(d: seq<Entry>, d0: seq<Entry>, x: Item, e: nat, left: nat)
    requires IsFile(d0, x) && x.index < |d0| && WipedTo(d, d0, x, e, left) && (left == 0 || e == 0)
    ensures d == Wiped(d0, x.first, x.index)
  {
    FileFits(d0, x);
  }

  lemma WipeStarts(d: seq<Entry>, d0: seq<Entry>, x: Item, left: nat)
    requires IsFile(d0, x) && x.index < |d0| && d == d0[x.index := d0[x.index][0 := FREE_ENTRY]]
             && left == NbLfn(|x.name|)
    ensures WipedTo(d, d0, x, x.index, left) && left <= 3
  {
    FileFits(d0, x);
    WipeOne(d0, x.index);
  }

  lemma {:induction false} EraseBackWipes(d: seq<Entry>, d0: seq<Entry>, x: Item, e: nat, left: nat)
    requires IsFile(d0, x) && x.index < |d0| && WipedTo(d, d0, x, e, left) && e < |d0| && |d| == |d0|
    ensures EraseBack(d, e, left) == Wiped(d0, x.first, x.index)
    decreases left
  {
    hide IsFile, WipedTo, Wiped;
    if left == 0 || e == 0 {
      WipeEnds(d, d0, x, e, left);
    } else {
      WipeStep(d, d0, x, e, left);
      if d[e - 1][11] == ATTR_LONG_NAME_MASK {
        EraseBackWipes(d[e - 1 := d[e - 1][0 := FREE_ENTRY]], d0, x, e - 1, left - 1);
      }
    }
  }

  lemma {:induction false} EraseBackKeepsNormal(d: seq<Entry>, e: nat, left: nat, i: nat)
    requires e < |d| && i < |d| && d[i][11] != ATTR_LONG_NAME_MASK
    ensures EraseBack(d, e, left)[i] == d[i]
    decreases left
  {
    if left > 0 && e > 0 && d[e - 1][11] == ATTR_LONG_NAME_MASK {
      EraseBackKeepsNormal(d[e - 1 := d[e - 1][0 := FREE_ENTRY]], e - 1, left - 1, i);
    }
  }

  /** Removing a file by the index recorded for it wipes exactly its own entries if and only if
      this is the index of its normal entry. */
  lemma RemovalIsExactIff(d: seq<Entry>, x: Item, dentry: nat)
    requires IsFile(d, x) && dentry < |d|
    ensures Erased(d, dentry, NbLfn(|x.name|)) == Wiped(d, x.first, x.index) <==> dentry == x.index
  {
    hide Tidy, Files, Wiped, EraseBack, NbLfn, LongName, ShortName;
    FilesAreInside(d, 0, x);
    if dentry == x.index {
      WipeStarts(d[dentry := d[dentry][0 := FREE_ENTRY]], d, x, NbLfn(|x.name|));
      EraseBackWipes(d[dentry := d[dentry][0 := FREE_ENTRY]], d, x, dentry, NbLfn(|x.name|));
    } else {
      EraseBackKeepsNormal(d[dentry := d[dentry][0 := FREE_ENTRY]], dentry, NbLfn(|x.name|), x.index);
      WipedAt(d, x.first, x.index);
    }
  }

  /** Removing a file that has just been added at the end mark s, by the index recorded for it,
      wipes exactly the entries just written if and only if all of those of the file were
      written in the cluster of s. */
  lemma AddThenRemoveIff(d: seq<Entry>, name: seq<byte>, isDir: bool, cluster: nat, size: nat)
    requires Tidy(d, 0) && ValidName(name) && cluster < 0x1_0000_0000 && size < 0x1_0000_0000
    requires FirstEnd(d, 0) + NbLfn(|name|) + 1 < |d|
    ensures var s, nb := FirstEnd(d, 0), NbLfn(|name|);
      var d1 := Added(d, s, name, isDir, cluster, size);
      && 0 <= RecordedDentry(s, nb) < |d1|
      && (Erased(d1, RecordedDentry(s, nb), nb) == Wiped(d1, s, s + nb) <==> (s + nb) / 128 == s / 128)
  {
    hide Tidy, Files, FirstEnd, Added, Wiped, Erased;
    var s := FirstEnd(d, 0);
    var x := NewItem(s, name, isDir, cluster, size);
    AddAppends(d, 0, s, name, isDir, cluster, size);
    assert x in Files(d, 0) + [x];
    DentryIsRight(s, name, isDir, cluster, size);
    RemovalIsExactIff(Added(d, s, name, isDir, cluster, size), x, RecordedDentry(s, NbLfn(|name|)));
  }

  lemma WipedAt(d: seq<Entry>, a: nat, b: nat)
    requires a <= b < |d|
    ensures IsFree(Wiped(d, a, b)[b])
  {
  }

  // ------------------------------------------------- a new size in an existing entry

  /** The entry with its size and cluster fields rewritten. */
  function Resized(e: Entry, size: nat, cluster: nat): Entry {
    e[28 := size % 256][29 := size / 0x100 % 256][30 := size / 0x10000 % 256][31 := size / 0x1000000 % 256]
     [26 := cluster % 256][27 := cluster / 0x100 % 256][20 := cluster / 0x10000 % 256][21 := cluster / 0x1000000 % 256]
  }

  lemma ResizedFields(e: Entry, size: nat, cluster: nat)
    requires size < 0x1_0000_0000 && cluster < 0x1_0000_0000
    ensures var e' := Resized(e, size, cluster);
      && EntrySize(e') == size && EntryCluster(e') == cluster && (EntryIsDir(e') <==> EntryIsDir(e))
      && e'[0] == e[0] && e'[11] == e[11] && ShortName(e') == ShortName(e)
  {
    var e' := Resized(e, size, cluster);
    LittleEndian4(e', 28);
    LittleEndian2(e', 20);
    LittleEndian2(e', 26);
    FourBytes(size);
    FourBytes(cluster);
    assert forall i | 0 <= i < 20 :: e'[i] == e[i];
    SamePart(e, e', 0, 8);
    SamePart(e, e', 8, 11);
  }

  lemma {:induction false} SamePart(e: Entry, e': Entry, i: nat, end: nat)
    requires i <= end <= 11 && forall j | i <= j < end :: e'[j] == e[j]
    ensures ShortPart(e', i, end) == ShortPart(e, i, end)
    decreases end - i
  {
    if i < end {
      SamePart(e, e', i + 1, end);
    }
  }

  /** The first file stays in the list, with new fields, when its normal entry is rewritten. */
  lemma FirstFileResized(d: seq<Entry>, d': seq<Entry>, i: nat, n: nat)
    requires Tidy(d, i) && !IsEnd(d[i]) && !IsFree(d[i]) && n == if IsLong(d[i]) then d[i][0] % 4 else 0
    requires n <= 3 && i + n < |d| && |d'| == |d| && Agree(d, d', i, i + n) && Tidy(d', i + n + 1)
    requires d'[i + n][0] == d[i + n][0] && d'[i + n][11] == d[i + n][11] && ShortName(d'[i + n]) == ShortName(d[i + n])
    ensures Tidy(d', i) && Files(d, i) != []
    ensures Files(d', i) == [ItemAt(d', i, i + n, Files(d, i)[0].name)] + Files(d', i + n + 1)
  {
    hide LongName, Join, ShortName, EntryCluster, EntrySize, EntryIsDir, NbLfn;
    assert n > 0 ==> d'[i] == d[i];
    assert n > 1 ==> d'[i + 1] == d[i + 1];
    assert n > 2 ==> d'[i + 2] == d[i + 2];
  }

  lemma {:induction false} UpdateFiles(d: seq<Entry>, i: nat, k: nat, size: nat, cluster: nat)
    requires Tidy(d, i) && k < |Files(d, i)| && size < 0x1_0000_0000 && cluster < 0x1_0000_0000
    requires Files(d, i)[k].index < |d|
    ensures var x := Files(d, i)[k];
      var d' := d[x.index := Resized(d[x.index], size, cluster)];
      Tidy(d', i) && Files(d', i) == Files(d, i)[k := x.(size := size, cluster := cluster)]
    decreases |d| - i
  {
    hide Tidy, Files, Agree, IsFree, IsLong, IsEnd, LongRun, RunName, ShortName, IsNormal, Resized;
    hide EntryCluster, EntrySize, EntryIsDir;
    var x := Files(d, i)[k];
    var d' := d[x.index := Resized(d[x.index], size, cluster)];
    NotAtEnd(d, i);
    ResizedFields(d[x.index], size, cluster);
    ReplacedOutside(d, x.index, Resized(d[x.index], size, cluster));
    if IsFree(d[i]) {
      NextAfterFree(d, i);
      FilesAreInside(d, i + 1, x);
      UpdateFiles(d, i + 1, k, size, cluster);
      AgreeInside(d, d', i, i + 1, x.index);
      SameFree(d, d', i);
    } else {
      var n := FirstFile(d, i);
      var rest := Files(d, i + n + 1);
      if k == 0 {
        SameFiles(d, d', i + n + 1);
        AgreeInside(d, d', i, i + n, x.index);
        FirstFileResized(d, d', i, n);
      } else {
        assert x == rest[k - 1];
        FilesAreInside(d, i + n + 1, x);
        UpdateFiles(d, i + n + 1, k - 1, size, cluster);
        AgreeInside(d, d', i, i + n + 1, x.index);
        SameFirstFile(d, d', i, n);
      }
    }
  }

  lemma ReplacedOutside(d: seq<Entry>, k: nat, e: Entry)
    requires k < |d|
    ensures Agree(d, d[k := e], 0, k) && Agree(d, d[k := e], k + 1, |d|)
  {
  }

  /** What a search returns is what the entry it names holds. */
  lemma {:induction false} FoundIsThere(d: seq<Entry>, i: nat, st: Scan, name: seq<byte>)
    requires Search(d, i, st, name).Some?
    ensures var f := Search(d, i, st, name).value;
      f.dentry < |d| && f.cluster == EntryCluster(d[f.dentry]) && f.size == EntrySize(d[f.dentry])
    decreases |d| - i
  {
    hide EntryCluster, EntrySize, EntryIsDir, FullName, Absorb;
    if IsFree(d[i]) {
      FoundIsThere(d, i + 1, st, name);
    } else if IsLong(d[i]) {
      FoundIsThere(d, i + 1, Absorb(st, d[i]), name);
    } else if FullName(st, d[i]) != name {
      FoundIsThere(d, i + 1, st.(lfn := 0), name);
    }
  }

  lemma {:induction false} NamedAt(fs: seq<Item>, k: nat)
    requires k < |fs| && UniqueNames(fs)
    ensures Named(fs, fs[k].name) == Some(Found(fs[k].index, fs[k].cluster, fs[k].size, fs[k].isDir))
  {
    if k > 0 {
      assert UniqueNames(fs[1..]) by {
        assert forall i, j | 0 <= i < j < |fs[1..]| ::
          fs[1..][i].name == fs[i + 1].name && fs[1..][j].name == fs[j + 1].name;
      }
      NamedAt(fs[1..], k - 1);
    }
  }

  lemma {:induction false} NamedReplaced(fs: seq<Item>, k: nat, x: Item, name: seq<byte>)
    requires k < |fs| && x.name == fs[k].name != name
    ensures Named(fs[k := x], name) == Named(fs, name)
  {
    if k == 0 {
      assert fs[k := x][1..] == fs[1..];
    } else {
      assert fs[k := x][1..] == fs[1..][k - 1 := x];
      NamedReplaced(fs[1..], k - 1, x, name);
    }
  }

  /** After the size and cluster fields of entry e have been rewritten, the search for the k-th
      file gives the new size and cluster if and only if e is its normal entry; then every other
      search gives what it gave before. */
  lemma UpdateThenLookup(d: seq<Entry>, k: nat, e: nat, size: nat, cluster: nat, other: seq<byte>)
    requires Tidy(d, 0) && k < |Files(d, 0)| && UniqueNames(Files(d, 0)) && e < |d|
    requires size < 0x1_0000_0000 && cluster < 0x1_0000_0000
    requires (Files(d, 0)[k].size, Files(d, 0)[k].cluster) != (size, cluster)
    ensures var x := Files(d, 0)[k]; var d' := d[e := Resized(d[e], size, cluster)];
      && (LookupName(d', x.name) == Some(Found(x.index, cluster, size, x.isDir)) <==> e == x.index)
      && (e == x.index ==> Tidy(d', 0) && UniqueNames(Files(d', 0)) && |Files(d', 0)| == |Files(d, 0)|)
      && (e == x.index && other != x.name ==> LookupName(d', other) == LookupName(d, other))
  {
    hide Tidy, Files, Resized, EntryCluster, EntrySize, EntryIsDir, Search;
    var x := Files(d, 0)[k];
    var d' := d[e := Resized(d[e], size, cluster)];
    FilesAreInside(d, 0, x);
    if e == x.index {
      UpdateFiles(d, 0, k, size, cluster);
      var fs, x' := Files(d, 0), x.(size := size, cluster := cluster);
      SearchIsNamed(d, 0, Scan(0, [], [], []), other);
      SearchIsNamed(d', 0, Scan(0, [], [], []), other);
      SearchIsNamed(d', 0, Scan(0, [], [], []), x.name);
      ReplacedUnique(fs, k, x');
      NamedAt(fs[k := x'], k);
      if other != x.name {
        NamedReplaced(fs, k, x', other);
      }
    } else if LookupName(d', x.name).Some? {
      FoundIsThere(d', 0, Scan(0, [], [], []), x.name);
      assert d'[x.index] == d[x.index];
    }
  }

  lemma ReplacedUnique(fs: seq<Item>, k: nat, x: Item)
    requires k < |fs| && x.name == fs[k].name && UniqueNames(fs)
    ensures UniqueNames(fs[k := x])
  {
  }

  // ---------------------------------------------------------------- a failing input

  /** Two clusters: one file, free entries up to the last but one of the first cluster, then
      the end mark. */
  function NearlyFullCluster(): seq<Entry> {
    seq(256, (i: nat) => NearlyFullEntry(i))
  }

  function NearlyFullEntry(i: nat): Entry {
    if i == 0 then NormalEntry([98], false, 5, 7) else Filled(if i < 127 then FREE_ENTRY else NO_MORE_ENTRY)
  }

  function Filled(b: byte): Entry {
    seq(32, _ => b)
  }

  lemma {:induction false} SkipFree(d: seq<Entry>, i: nat, j: nat)
    requires i <= j < |d| && Tidy(d, j) && forall e | i <= e < j :: IsFree(d[e])
    ensures Tidy(d, i) && Files(d, i) == Files(d, j) && FirstEnd(d, i) == FirstEnd(d, j)
    decreases j - i
  {
    hide LongRun, RunName, LongName, ShortName, NbLfn, ItemAt;
    if i < j {
      SkipFree(d, i + 1, j);
      NextEnd(d, i);
    }
  }

  lemma ShortLetter(e: Entry)
    requires e == NormalEntry([98], false, 5, 7)
    ensures IsNormal(e) && ShortName(e) == [98]
  {
    assert e[0] == NormalByte([98], false, 5, 7, 0) == 66;
    assert e[1] == NormalByte([98], false, 5, 7, 1) == 0x20;
    assert e[8] == NormalByte([98], false, 5, 7, 8) == 0x20;
    assert e[11] == NormalByte([98], false, 5, 7, 11) == ATTR_ARCHIVE;
    assert ShortPart(e, 1, 8) == [];
    assert ShortPart(e, 0, 8) == [98] + [];
  }

  lemma NearlyFullFacts() returns (x: Item)
    ensures var d := NearlyFullCluster();
      && |d| == 256 && Tidy(d, 0) && FirstEnd(d, 0) == 127
      && Files(d, 0) == [x] && x.name == [98] && x.first == x.index == 0
  {
    var d := NearlyFullCluster();
    assert IsEnd(d[127]) && Tidy(d, 127) && Files(d, 127) == [] && FirstEnd(d, 127) == 127;
    assert forall e | 1 <= e < 127 :: IsFree(d[e]);
    SkipFree(d, 1, 127);
    ShortLetter(d[0]);
    hide ShortName, ShortPart, NormalEntry, NearlyFullCluster;
    x := ItemAt(d, 0, 0, [98]);
    assert Files(d, 0) == [x] + Files(d, 1);
  }

  lemma NewLetter()
    ensures ValidName([97]) && NbLfn(|[97]|) == 1 && RecordedDentry(127, 1) == 0
    ensures NewItem(127, [97], false, 0, 0) == Item(127, 128, [97], 0, 0, false)
  {
  }

  /** A file with a one-letter name is added: its normal entry is number 128. */
  lemma LetterAdded(d: seq<Entry>, x: Item)
    requires |d| == 256 && Tidy(d, 0) && FirstEnd(d, 0) == 127 && Files(d, 0) == [x] && x.name == [98]
    ensures var d1 := Added(d, 127, [97], false, 0, 0);
      && Tidy(d1, 0) && Files(d1, 0) == [x, Item(127, 128, [97], 0, 0, false)] && UniqueNames(Files(d1, 0))
      && LookupName(d1, [98]).Some? && LookupName(d1, [97]) == Some(Found(128, 0, 0, false))
  {
    hide Tidy, Files, FirstEnd, Added, LookupName, UniqueNames, NewItem, NbLfn, ValidName, Count;
    OneFile(d, x);
    NewLetter();
    AddThenLookup(d, [97], false, 0, 0, [98]);
    AddAppends(d, 0, 127, [97], false, 0, 0);
  }

  /** A file is added to this directory; the index recorded for it is 0; removing it by this
      index removes the other file, and leaves the new one. */
  lemma WrongFileRemoved()
    ensures var d := NearlyFullCluster(); var d1 := Added(d, 127, [97], false, 0, 0);
      && Tidy(d, 0) && FirstEnd(d, 0) == 127 && RecordedDentry(127, NbLfn(|[97]|)) == 0
      && LookupName(d1, [98]).Some? && LookupName(d1, [97]).Some?
      && LookupName(Erased(d1, 0, 1), [98]) == None && LookupName(Erased(d1, 0, 1), [97]).Some?
  {
    hide NearlyFullCluster, Tidy, Files, FirstEnd, Added, LookupName, UniqueNames, NbLfn, RecordedDentry, Wiped, Erased;
    var x := NearlyFullFacts();
    LetterAdded(NearlyFullCluster(), x);
    NewLetter();
    var d1 := Added(NearlyFullCluster(), 127, [97], false, 0, 0);
    RemoveThenLookup(d1, 0, [97]);
    EraseFirst(d1);
  }

  /** The same directory; the new file grows, and its size and cluster are written to the entry
      recorded for it: the search for it does not find them. */
  lemma GrownFileIsMissed()
    ensures var d1 := Added(NearlyFullCluster(), 127, [97], false, 0, 0);
      && LookupName(d1, [97]) == Some(Found(128, 0, 0, false)) && RecordedDentry(127, NbLfn(|[97]|)) == 0
      && LookupName(d1[0 := Resized(d1[0], 9, 6)], [97]) != Some(Found(128, 6, 9, false))
  {
    hide NearlyFullCluster, Tidy, Files, FirstEnd, Added, LookupName, UniqueNames, NbLfn, RecordedDentry, Resized;
    var x := NearlyFullFacts();
    LetterAdded(NearlyFullCluster(), x);
    NewLetter();
    UpdateThenLookup(Added(NearlyFullCluster(), 127, [97], false, 0, 0), 1, 0, 9, 6, [98]);
  }

  lemma OneFile(d: seq<Entry>, x: Item)
    requires Tidy(d, 0) && Files(d, 0) == [x] && x.name == [98]
    ensures LookupName(d, [98]).Some? && LookupName(d, [97]) == None && UniqueNames(Files(d, 0))
  {
    hide Tidy, Files, Search;
    SearchIsNamed(d, 0, Scan(0, [], [], []), [98]);
    SearchIsNamed(d, 0, Scan(0, [], [], []), [97]);
  }

  lemma EraseFirst(d: seq<Entry>)
    requires |d| > 0
    ensures Erased(d, 0, 1) == Wiped(d, 0, 0)
  {
  }
}
