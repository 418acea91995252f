/**
 The resource container: a file count, then for each file the lengths and bytes of its
 name and its data, all lengths little-endian. The decoder is written from that layout
 alone; packing and unpacking are inverse to each other.
 */
module ResourceContainer {
  import opened Basics

  const UINT16_RANGE := 0x1_0000
  const UINT32_RANGE := 0x1_0000_0000

  type byte = b: nat | b < 256

  datatype File = File(name: seq<byte>, data: seq<byte>)

  // ----- Integers -----

  function Pow256(k: nat): nat {
    if k == 0 then 1 else 256 * Pow256(k - 1)
  }

  function LittleEndian(n: nat, width: nat): (s: seq<byte>)
    ensures |s| == width
  {
    if width == 0 then [] else [n % 256] + LittleEndian(n / 256, width - 1)
  }

  function FromLittleEndian(s: seq<byte>): nat {
    if s == [] then 0 else s[0] + 256 * FromLittleEndian(s[1..])
  }

  lemma {:induction false} IntegerRoundTrip(n: nat, width: nat)
    requires n < Pow256(width)
    ensures FromLittleEndian(LittleEndian(n, width)) == n
  {
    if width > 0 {
      IntegerRoundTrip(n / 256, width - 1);
    }
  }

  lemma {:induction false} BytesRoundTrip(s: seq<byte>)
    ensures FromLittleEndian(s) < Pow256(|s|)
    ensures LittleEndian(FromLittleEndian(s), |s|) == s
  {
    if s != [] {
      BytesRoundTrip(s[1..]);
    }
  }

  lemma Ranges()
    ensures Pow256(2) == UINT16_RANGE && Pow256(4) == UINT32_RANGE
  {
    assert Pow256(1) == 256;
    assert Pow256(3) == 256 * Pow256(2);
  }

  // ----- Packing -----

  predicate Fits(file: File) {
    |file.name| < UINT16_RANGE && |file.data| < UINT32_RANGE
  }

  /** The length of a block in `width` bytes, then the block. */
  function PackedBlock(block: seq<byte>, width: nat): seq<byte> {
    LittleEndian(|block|, width) + block
  }

  function PackedFile(file: File): seq<byte> {
    PackedBlock(file.name, 2) + PackedBlock(file.data, 4)
  }

  function PackedFiles(files: seq<File>): seq<byte> {
    if files == [] then [] else PackedFile(files[0]) + PackedFiles(files[1..])
  }

  predicate AllFit(files: seq<File>) {
    |files| < UINT32_RANGE && forall i :: 0 <= i < |files| ==> Fits(files[i])
  }

  /** None where a length does not fit its field and packing raises an error. */
  function Packed(files: seq<File>): Option<seq<byte>> {
    if AllFit(files) then Some(LittleEndian(|files|, 4) + PackedFiles(files)) else None
  }

  // ----- Unpacking -----

  /** `width` bytes as an integer, then that many bytes; and what is left. */
  function ReadBlock(buf: seq<byte>, width: nat): Option<(seq<byte>, seq<byte>)> {
    if |buf| < width then None
    else
      var n, rest := FromLittleEndian(buf[..width]), buf[width..];
      if |rest| < n then None else Some((rest[..n], rest[n..]))
  }

  function ReadFile(buf: seq<byte>): Option<(File, seq<byte>)> {
    match ReadBlock(buf, 2)
    case None => None
    case Some((name, afterName)) =>
      match ReadBlock(afterName, 4)
      case None => None
      case Some((data, rest)) => Some((File(name, data), rest))
  }

  function ReadFiles(buf: seq<byte>, count: nat): Option<(seq<File>, seq<byte>)>
    decreases count
  {
    if count == 0 then Some(([], buf))
    else
      match ReadFile(buf)
      case None => None
      case Some((file, afterFile)) =>
        match ReadFiles(afterFile, count - 1)
        case None => None
        case Some((files, rest)) => Some(([file] + files, rest))
  }

  /** The files in a container, if the bytes are one and nothing follows it. */
  function Unpacked(buf: seq<byte>): Option<seq<File>> {
    if |buf| < 4 then None
    else
      match ReadFiles(buf[4..], FromLittleEndian(buf[..4]))
      case None => None
      case Some((files, rest)) => if rest == [] then Some(files) else None
  }

  // ----- They are inverse -----

  lemma ReadsPackedBlock(block: seq<byte>, width: nat, rest: seq<byte>)
    requires |block| < Pow256(width)
    ensures ReadBlock(PackedBlock(block, width) + rest, width) == Some((block, rest))
  {
    var head := LittleEndian(|block|, width);
    var buf := head + block + rest;
    IntegerRoundTrip(|block|, width);
    assert buf[..width] == head && buf[width..] == block + rest;
    assert (block + rest)[..|block|] == block && (block + rest)[|block|..] == rest;
  }

  // ----- The layout, byte by byte -----

  lemma LittleEndianBytes(n: nat)
    requires n < 0x1_0000_0000
    ensures n < 0x1_0000 ==> LittleEndian(n, 2) == [n % 256, n / 256]
    ensures LittleEndian(n, 4) == [n % 256, n / 256 % 256, n / 65536 % 256, n / 16777216]
  {
    var a, b, c := n / 256, n / 65536, n / 16777216;
    assert a / 256 == b && b / 256 == c;
    assert LittleEndian(c, 1) == [c % 256];
    assert LittleEndian(b, 2) == [b % 256] + LittleEndian(b / 256, 1);
    assert LittleEndian(a, 3) == [a % 256] + LittleEndian(a / 256, 2);
    assert LittleEndian(n, 4) == [n % 256] + LittleEndian(n / 256, 3);
    if n < 0x1_0000 {
      assert LittleEndian(a, 1) == [a % 256];
      assert LittleEndian(n, 2) == [n % 256] + LittleEndian(n / 256, 1);
    }
  }

  /** A file is its name's length in two bytes, low byte first, the name, its data's length in four, and the data. */
  lemma FileLayout(file: File)
    requires |file.name| < 0x1_0000 && |file.data| < 0x1_0000_0000
    ensures var n, d := |file.name|, |file.data|;
            PackedFile(file)
            == ([n % 256, n / 256] + file.name)
               + ([d % 256, d / 256 % 256, d / 65536 % 256, d / 16777216] + file.data)
  {
    LittleEndianBytes(|file.name|);
    LittleEndianBytes(|file.data|);
  }

  /** A container is the number of files in four bytes, low byte first, and the files one after another. */
  lemma ContainerLayout(files: seq<File>, more: seq<File>, file: File)
    ensures Packed(files).Some?
       <==> |files| < 0x1_0000_0000
            && forall i :: 0 <= i < |files| ==> |files[i].name| < 0x1_0000 && |files[i].data| < 0x1_0000_0000
    ensures Packed(files).Some? ==>
              var n := |files|;
              Packed(files).value == [n % 256, n / 256 % 256, n / 65536 % 256, n / 16777216] + PackedFiles(files)
    ensures PackedFiles([]) == [] && PackedFiles([file] + more) == PackedFile(file) + PackedFiles(more)
  {
    if |files| < 0x1_0000_0000 {
      LittleEndianBytes(|files|);
    }
    assert ([file] + more)[1..] == more;
    assert forall i :: 0 <= i < |files| ==> (Fits(files[i]) <==> |files[i].name| < 0x1_0000 && |files[i].data| < 0x1_0000_0000);
  }

  lemma Associates(a: seq<byte>, b: seq<byte>, c: seq<byte>)
    ensures a + (b + c) == (a + b) + c
  {
  }

  lemma BlockIsPacked(buf: seq<byte>, width: nat)
    requires ReadBlock(buf, width).Some?
    ensures var (block, rest) := ReadBlock(buf, width).value;
            |block| < Pow256(width) && buf == PackedBlock(block, width) + rest
  {
    BytesRoundTrip(buf[..width]);
    var (block, rest) := ReadBlock(buf, width).value;
    assert buf == buf[..width] + buf[width..];
    assert buf[width..] == block + rest;
    assert PackedBlock(block, width) == buf[..width] + block;
    Associates(buf[..width], block, rest);
  }

  lemma ReadsPackedFile(file: File, rest: seq<byte>)
    requires Fits(file)
    ensures ReadFile(PackedFile(file) + rest) == Some((file, rest))
  {
    Ranges();
    var dataBlock := PackedBlock(file.data, 4);
    assert PackedFile(file) + rest == PackedBlock(file.name, 2) + (dataBlock + rest);
    ReadsPackedBlock(file.name, 2, dataBlock + rest);
    ReadsPackedBlock(file.data, 4, rest);
  }

  lemma FileIsPacked(buf: seq<byte>)
    requires ReadFile(buf).Some?
    ensures var (file, rest) := ReadFile(buf).value; Fits(file) && buf == PackedFile(file) + rest
  {
    Ranges();
    var (name, afterName) := ReadBlock(buf, 2).value;
    var (data, rest) := ReadBlock(afterName, 4).value;
    BlockIsPacked(buf, 2);
    BlockIsPacked(afterName, 4);
    assert PackedFile(File(name, data)) + rest == PackedBlock(name, 2) + (PackedBlock(data, 4) + rest);
  }

  lemma {:induction false} ReadsPackedFiles(files: seq<File>, rest: seq<byte>)
    requires forall i :: 0 <= i < |files| ==> Fits(files[i])
    ensures ReadFiles(PackedFiles(files) + rest, |files|) == Some((files, rest))
  {
    if files == [] {
      assert PackedFiles(files) + rest == rest;
    } else {
      var after := PackedFiles(files[1..]) + rest;
      ReadsPackedFiles(files[1..], rest);
      assert PackedFiles(files) + rest == PackedFile(files[0]) + after;
      ReadsPackedFile(files[0], after);
      assert [files[0]] + files[1..] == files;
    }
  }

  lemma PackedFilesCons(file: File, files: seq<File>, rest: seq<byte>)
    ensures PackedFiles([file] + files) + rest == PackedFile(file) + (PackedFiles(files) + rest)
  {
    assert ([file] + files)[1..] == files;
    assert PackedFiles([file] + files) == PackedFile(file) + PackedFiles(files);
  }

  ghost predicate IsPacking(buf: seq<byte>, count: nat, files: seq<File>, rest: seq<byte>) {
    && |files| == count && (forall i :: 0 <= i < |files| ==> Fits(files[i]))
    && buf == PackedFiles(files) + rest
  }

  lemma PackingCons(buf: seq<byte>, file: File, afterFile: seq<byte>, count: nat, files: seq<File>, rest: seq<byte>)
    requires ReadFile(buf) == Some((file, afterFile)) && IsPacking(afterFile, count, files, rest)
    ensures IsPacking(buf, count + 1, [file] + files, rest)
  {
    FileIsPacked(buf);
    PackedFilesCons(file, files, rest);
  }

  lemma NothingPacked(buf: seq<byte>)
    ensures IsPacking(buf, 0, [], buf)
  {
    assert PackedFiles([]) + buf == buf;
  }

  lemma {:induction false} FilesArePacked(buf: seq<byte>, count: nat)
    ensures match ReadFiles(buf, count)
            case None => true
            case Some((files, rest)) => IsPacking(buf, count, files, rest)
    decreases count
  {
    if count == 0 {
      NothingPacked(buf);
    } else {
      match ReadFile(buf)
      case None =>
      case Some((file, afterFile)) =>
        FilesArePacked(afterFile, count - 1);
        match ReadFiles(afterFile, count - 1)
        case None =>
        case Some((files, rest)) => PackingCons(buf, file, afterFile, count - 1, files, rest);
    }
  }

  lemma PackedReadsBack(files: seq<File>, buf: seq<byte>)
    requires Packed(files) == Some(buf)
    ensures Unpacked(buf) == Some(files)
  {
    Ranges();
    ReadsPackedFiles(files, []);
    IntegerRoundTrip(|files|, 4);
    assert buf[..4] == LittleEndian(|files|, 4) && buf[4..] == PackedFiles(files);
    assert PackedFiles(files) + [] == PackedFiles(files);
  }

  lemma ReadIsPacked(files: seq<File>, buf: seq<byte>)
    requires Unpacked(buf) == Some(files)
    ensures Packed(files) == Some(buf)
  {
    Ranges();
    FilesArePacked(buf[4..], FromLittleEndian(buf[..4]));
    BytesRoundTrip(buf[..4]);
    assert buf == buf[..4] + buf[4..];
    assert PackedFiles(files) + [] == PackedFiles(files);
  }

  /** The bytes decode to a list of files exactly when packing the list gives those bytes, to the last one. */
  lemma UnpackingInvertsPacking(files: seq<File>, buf: seq<byte>)
    ensures Unpacked(buf) == Some(files) <==> Packed(files) == Some(buf)
  {
    if Packed(files) == Some(buf) {
      PackedReadsBack(files, buf);
    }
    if Unpacked(buf) == Some(files) {
      ReadIsPacked(files, buf);
    }
  }

  // ----- The packer -----

  /** A directory entry, in the order of the sorted listing. */
  datatype DirEntry = DirEntry(name: seq<byte>, isFile: bool, data: seq<byte>)

  function FilesOf(entries: seq<DirEntry>): seq<File> {
    if entries == [] then []
    else FilesOf(entries[..|entries| - 1])
         + if entries[|entries| - 1].isFile then [File(entries[|entries| - 1].name, entries[|entries| - 1].data)] else []
  }

  lemma {:induction false} PackedFilesSnoc(files: seq<File>, file: File)
    ensures PackedFiles(files + [file]) == PackedFiles(files) + PackedFile(file)
  {
    if files == [] {
      assert files + [file] == [file];
      assert PackedFiles([file]) == PackedFile(file) + PackedFiles([]);
    } else {
      PackedFilesSnoc(files[1..], file);
      assert (files + [file])[1..] == files[1..] + [file];
      Associates(PackedFile(files[0]), PackedFiles(files[1..]), PackedFile(file));
    }
  }

  /** The positions of the plain files in the listing, in order. */
  ghost predicate PlainFiles(entries: seq<DirEntry>, places: seq<nat>) {
    && (forall k, l :: 0 <= k < l < |places| ==> places[k] < places[l])
    && (forall k :: 0 <= k < |places| ==> places[k] < |entries| && entries[places[k]].isFile)
    && (forall i :: 0 <= i < |entries| && entries[i].isFile ==> i in places)
  }

  lemma OneMorePlace(entries: seq<DirEntry>, last: DirEntry, places: seq<nat>)
    requires PlainFiles(entries, places)
    ensures PlainFiles(entries + [last], if last.isFile then places + [|entries|] else places)
  {
    var all := entries + [last];
    var more := if last.isFile then places + [|entries|] else places;
    assert forall i :: 0 <= i < |entries| ==> all[i] == entries[i];
    forall i | 0 <= i < |all| && all[i].isFile ensures i in more {
      if i == |entries| {
        assert more[|places|] == i;
      } else {
        assert i in places;
      }
    }
  }

  /** The files are those at these places, with their own names and data. */
  ghost predicate TakenFrom(files: seq<File>, entries: seq<DirEntry>, places: seq<nat>) {
    && |files| == |places|
    && forall k :: 0 <= k < |places| ==>
         places[k] < |entries| && files[k] == File(entries[places[k]].name, entries[places[k]].data)
  }

  lemma StillTaken(files: seq<File>, entries: seq<DirEntry>, last: DirEntry, places: seq<nat>)
    requires TakenFrom(files, entries, places)
    ensures TakenFrom(files, entries + [last], places)
  {
    assert forall i :: 0 <= i < |entries| ==> (entries + [last])[i] == entries[i];
  }

  lemma LastTaken(files: seq<File>, entries: seq<DirEntry>, places: seq<nat>, place: nat)
    requires TakenFrom(files, entries, places) && place < |entries|
    ensures TakenFrom(files + [File(entries[place].name, entries[place].data)], entries, places + [place])
  {
  }

  lemma FilesOfSnoc(entries: seq<DirEntry>, last: DirEntry)
    ensures FilesOf(entries + [last]) == FilesOf(entries) + if last.isFile then [File(last.name, last.data)] else []
  {
    assert (entries + [last])[..|entries|] == entries;
  }

  /** What is packed are the plain files of the listing, each once, in order, with their own names and data. */
  lemma {:induction false} PlainFilesArePacked(entries: seq<DirEntry>) returns (places: seq<nat>)
    ensures PlainFiles(entries, places) && TakenFrom(FilesOf(entries), entries, places)
  {
    if entries == [] {
      places := [];
    } else {
      var before := PlainFilesArePacked(entries[..|entries| - 1]);
      places := OneMoreTaken(entries[..|entries| - 1], entries[|entries| - 1], before);
      assert entries[..|entries| - 1] + [entries[|entries| - 1]] == entries;
    }
  }

  lemma OneMoreTaken(entries: seq<DirEntry>, last: DirEntry, before: seq<nat>) returns (places: seq<nat>)
    requires PlainFiles(entries, before) && TakenFrom(FilesOf(entries), entries, before)
    ensures PlainFiles(entries + [last], places) && TakenFrom(FilesOf(entries + [last]), entries + [last], places)
  {
    places := if last.isFile then before + [|entries|] else before;
    OneMorePlace(entries, last, before);
    FilesOfSnoc(entries, last);
    StillTaken(FilesOf(entries), entries, last, before);
    if last.isFile {
      LastTaken(FilesOf(entries), entries + [last], before, |entries|);
    } else {
      assert FilesOf(entries) + [] == FilesOf(entries);
    }
  }

  lemma OneMoreFile(buf: seq<byte>, files: seq<File>, i: nat)
    requires i < |files|
    ensures buf + PackedFiles(files[..i + 1]) == (buf + PackedFiles(files[..i])) + PackedFile(files[i])
  {
    PackedFilesSnoc(files[..i], files[i]);
    assert files[..i + 1] == files[..i] + [files[i]];
  }

  method CollectFiles(entries: seq<DirEntry>) returns (files: seq<File>)
    ensures files == FilesOf(entries)
  {
    files := [];
    for i := 0 to |entries|
      invariant files == FilesOf(entries[..i])
    {
      assert entries[..i + 1][..i] == entries[..i];
      if entries[i].isFile {
        files := files + [File(entries[i].name, entries[i].data)];
      }
    }
    assert entries[..|entries|] == entries;
  }

  method PackDirectory(entries: seq<DirEntry>) returns (result: Option<seq<byte>>)
    ensures result == Packed(FilesOf(entries))
  {
    var files := CollectFiles(entries);
    if |files| >= UINT32_RANGE {
      return None;
    }
    var buf := LittleEndian(|files|, 4);
    var fit;
    fit, buf := AppendFiles(buf, files);
    return if fit then Some(buf) else None;
  }

  method AppendFiles(buf: seq<byte>, files: seq<File>) returns (fit: bool, extended: seq<byte>)
    ensures fit <==> forall i :: 0 <= i < |files| ==> Fits(files[i])
    ensures fit ==> extended == buf + PackedFiles(files)
  {
    extended := buf;
    for i := 0 to |files|
      invariant forall j :: 0 <= j < i ==> Fits(files[j])
      invariant extended == buf + PackedFiles(files[..i])
    {
      var file := files[i];
      if |file.name| >= UINT16_RANGE || |file.data| >= UINT32_RANGE {
        return false, extended;
      }
      OneMoreFile(buf, files, i);
      extended := AppendFile(extended, file);
    }
    assert files[..|files|] == files;
    fit := true;
  }

  method AppendFile(buf: seq<byte>, file: File) returns (extended: seq<byte>)
    ensures extended == buf + PackedFile(file)
  {
    extended := buf + LittleEndian(|file.name|, 2);
    extended := extended + file.name;
    extended := extended + LittleEndian(|file.data|, 4);
    extended := extended + file.data;
    assert extended == buf + (PackedBlock(file.name, 2) + PackedBlock(file.data, 4));
  }
}
