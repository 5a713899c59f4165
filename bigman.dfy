/** bigman.py: every file of every group is read in chunks of 10000 bytes;
    each chunk becomes a text file `<path without extension>_<i>.txt` that
    holds, for each byte, the base64 text of that byte written as a 5-byte
    little-endian integer. The text file is moved into `txtfiles_<group>`,
    its size is added to the group's total, and one line per group goes to
    the statistics file. Then the PDF stage runs on the same groups.

    The size `os.path.getsize` reports while the text file is still open is
    a parameter `visible`: the number of bytes on disk once `n` have been
    written. */
module Bigman {
  import opened Wrappers
  import opened PyStr
  import opened Seqs
  import opened Canvas
  import opened Disk
  import Base64
  import Utils
  import CreatePdfFile

  /** `chunk_size` in `main`. */
  const ChunkSize := 10000

  /** The width of `data.to_bytes(5, 'little')`. */
  const Width := 5

  // ---------------------------------------------------------------------------
  // `read_wav_in_chunks`

  /** The chunks `read_wav_in_chunks(path, chunk_size)` yields for a file
      holding `file` (`None`: the file cannot be opened or read; the error
      is printed and nothing is yielded). `read(n)` with n < 0 reads to the
      end, and `read(0)` returns b"", which ends the loop at once. */
  function ReadChunks(file: Option<seq<byte>>, chunkSize: int): seq<seq<byte>> {
    if file.None? || chunkSize == 0 || file.value == [] then []
    else if chunkSize < 0 then [file.value]
    else Chunks(file.value, chunkSize)
  }

  /** The generator: `while chunk := wav_file.read(chunk_size): yield chunk`. */
  method ReadWavInChunks(file: Option<seq<byte>>, chunkSize: int) returns (chunks: seq<seq<byte>>)
    ensures chunks == ReadChunks(file, chunkSize)
  {
    chunks := [];
    if file.None? || chunkSize == 0 {
      return;
    }
    var data := file.value;
    assert data[0..] == data;
    var pos := 0;
    while pos < |data|
      invariant 0 <= pos <= |data|
      invariant chunks + ReadChunks(Some(data[pos..]), chunkSize) == ReadChunks(file, chunkSize)
      decreases |data| - pos
    {
      var end := if chunkSize < 0 || pos + chunkSize >= |data| then |data| else pos + chunkSize;
      ReadStep(data, pos, chunkSize, end);
      chunks := chunks + [data[pos..end]];
      pos := end;
    }
    assert data[pos..] == [];
  }

  /** One turn of the loop: `read` returns the next `chunkSize` bytes, or
      all that is left when there are fewer or `chunkSize` is negative. */
  lemma ReadStep(data: seq<byte>, pos: nat, chunkSize: int, end: nat)
    requires pos < |data| && chunkSize != 0
    requires end == if chunkSize < 0 || pos + chunkSize >= |data| then |data| else pos + chunkSize
    ensures ReadChunks(Some(data[pos..]), chunkSize)
         == [data[pos..end]] + ReadChunks(Some(data[end..]), chunkSize)
  {
    var rest := data[pos..];
    assert rest[..end - pos] == data[pos..end];
    assert rest[end - pos..] == data[end..];
    if chunkSize < 0 || chunkSize >= |rest| {
      assert rest[..end - pos] == rest && rest[end - pos..] == [];
    }
  }

  /** A readable file comes back as chunks of exactly `chunkSize` bytes but
      the last, which is shorter or equal; together they are the file, and
      there are ceil(S / chunkSize) of them, none for an empty file. A file
      that cannot be read yields nothing. */
  lemma ReadChunksSound(file: Option<seq<byte>>, chunkSize: int)
    ensures file.None? ==> ReadChunks(file, chunkSize) == []
    ensures file.Some? && chunkSize > 0 ==>
      var r, s := ReadChunks(file, chunkSize), file.value;
      && (forall i :: 0 <= i < |r| ==> 0 < |r[i]| <= chunkSize)
      && (forall i :: 0 <= i < |r| - 1 ==> |r[i]| == chunkSize)
      && Concat(r) == s
      && |r| == (|s| + chunkSize - 1) / chunkSize
  {
    if file.Some? && chunkSize > 0 {
      var r, s := ReadChunks(file, chunkSize), file.value;
      ConcatChunks(s, chunkSize);
      if s != [] {
        CeilingDiv(|s|, chunkSize, |r|);
      }
    }
  }

  lemma CeilingDiv(a: nat, n: nat, q: nat)
    requires n > 0 && a <= q * n < a + n
    ensures q == (a + n - 1) / n
  {
    var x := a + n - 1;
    var k := x / n;
    assert k * n <= x < k * n + n;
    if q < k {
      MulLess(q + 1, k, n);
    } else if k < q {
      MulLess(k + 1, q, n);
    }
  }

  lemma MulLess(a: nat, b: nat, n: nat)
    requires a <= b
    ensures a * n <= b * n
  {
  }

  // ---------------------------------------------------------------------------
  // Encoding a byte

  /** What the inner loop writes for one byte `b`: the base64 text of
      `b.to_bytes(5, 'little')`. */
  function EncodeByte(b: byte): (r: string)
    ensures |r| == 8
  {
    Base64.SmallToBytesLittle(b, Width);
    Base64.Encode(Base64.ToBytesLittle(b, Width))
  }

  /** The bytes are b, 0, 0, 0, 0: only the first two characters depend on
      `b`, and the text always ends in "AAAAA=". */
  lemma EncodeByteShape(b: byte)
    ensures EncodeByte(b) == [Base64.CharOf(b / 4), Base64.CharOf((b % 4) * 16)] + "AAAAA="
  {
    Base64.SmallToBytesLittle(b, Width);
    var bs := Base64.ToBytesLittle(b, Width);
    assert bs == [b, 0, 0, 0, 0];
    Base64.EncodeCons(bs);
    assert bs[3..] == [0, 0];
  }

  /** Every character written is ASCII, and none ends a line. */
  lemma EncodeByteAscii(b: byte)
    ensures IsAscii(EncodeByte(b))
    ensures '\n' !in EncodeByte(b) && '\r' !in EncodeByte(b)
  {
    EncodeByteShape(b);
  }

  /** The inverse of `EncodeByte`: `int.from_bytes(b64decode(q), 'little')`,
      `None` for a text that is no such encoding. */
  function DecodeByte(q: string): Option<byte> {
    match Base64.Decode(q)
    case Some(bs) =>
      var n := Base64.FromBytesLittle(bs);
      if n < 256 then Some(n) else None
    case None => None
  }

  /** Each byte is recovered from its eight characters. */
  lemma ByteRoundTrip(b: byte)
    ensures DecodeByte(EncodeByte(b)) == Some(b)
  {
    Base64.SmallToBytesLittle(b, Width);
    Base64.DecodeEncode(Base64.ToBytesLittle(b, Width));
    Base64.FromToBytesLittle(b, Width);
  }

  // ---------------------------------------------------------------------------
  // The text of a chunk

  /** The text written for a chunk: the encodings of its bytes, one after
      the other with no separator. */
  function ChunkText(chunk: seq<byte>): (r: string)
    ensures |r| == 8 * |chunk|
  {
    if chunk == [] then [] else EncodeByte(chunk[0]) + ChunkText(chunk[1..])
  }

  lemma {:induction false} ChunkTextSnoc(chunk: seq<byte>, b: byte)
    ensures ChunkText(chunk + [b]) == ChunkText(chunk) + EncodeByte(b)
    decreases |chunk|
  {
    if chunk == [] {
      assert ChunkText([b]) == EncodeByte(b) + ChunkText([]);
    } else {
      assert (chunk + [b])[1..] == chunk[1..] + [b];
      ChunkTextSnoc(chunk[1..], b);
    }
  }

  /** The k-th group of eight characters is the encoding of the k-th byte. */
  lemma {:induction false} ChunkTextAt(chunk: seq<byte>, k: nat)
    requires k < |chunk|
    ensures ChunkText(chunk)[8 * k..8 * k + 8] == EncodeByte(chunk[k])
    decreases k
  {
    if k > 0 {
      ChunkTextAt(chunk[1..], k - 1);
      assert ChunkText(chunk)[8 * k..8 * k + 8] == ChunkText(chunk[1..])[8 * (k - 1)..8 * (k - 1) + 8];
    }
  }

  lemma {:induction false} ChunkTextAscii(chunk: seq<byte>)
    ensures IsAscii(ChunkText(chunk))
    ensures '\n' !in ChunkText(chunk) && '\r' !in ChunkText(chunk)
    decreases |chunk|
  {
    if chunk != [] {
      EncodeByteAscii(chunk[0]);
      ChunkTextAscii(chunk[1..]);
    }
  }

  /** `for data in chunk: writer.write(b64encode(data.to_bytes(5, 'little')))`. */
  method EncodeChunk(chunk: seq<byte>) returns (text: string)
    ensures text == ChunkText(chunk)
  {
    text := [];
    for k := 0 to |chunk|
      invariant text == ChunkText(chunk[..k])
    {
      ChunkTextSnoc(chunk[..k], chunk[k]);
      assert chunk[..k + 1] == chunk[..k] + [chunk[k]];
      text := text + EncodeByte(chunk[k]);
    }
    assert chunk[..|chunk|] == chunk;
  }

  /** Reading a chunk's text back eight characters at a time. */
  function DecodeChunkText(t: string): Option<seq<byte>>
    decreases |t|
  {
    if t == [] then Some([])
    else if |t| < 8 then None
    else
      match (DecodeByte(t[..8]), DecodeChunkText(t[8..]))
      case (Some(b), Some(rest)) => Some([b] + rest)
      case _ => None
  }

  /** A chunk is recovered byte for byte from its text. */
  lemma {:induction false} ChunkRoundTrip(chunk: seq<byte>)
    ensures DecodeChunkText(ChunkText(chunk)) == Some(chunk)
    decreases |chunk|
  {
    if chunk != [] {
      var t := ChunkText(chunk);
      assert t[..8] == EncodeByte(chunk[0]) && t[8..] == ChunkText(chunk[1..]);
      ByteRoundTrip(chunk[0]);
      ChunkRoundTrip(chunk[1..]);
      assert [chunk[0]] + chunk[1..] == chunk;
    }
  }

  /** `open(path, "w", encoding="utf-8")`: ASCII text is written one byte per
      character. */
  function AsciiBytes(s: string): (r: seq<byte>)
    requires IsAscii(s)
    ensures |r| == |s| && forall k :: 0 <= k < |s| ==> r[k] == s[k] as int
  {
    seq(|s|, k requires 0 <= k < |s| => s[k] as int)
  }

  /** The file written for a chunk. */
  function ChunkFile(chunk: seq<byte>): FileData {
    ChunkTextAscii(chunk);
    Bytes(AsciiBytes(ChunkText(chunk)))
  }

  /** Reading a chunk file as text and decoding it gives the chunk back;
      the file is eight bytes per byte of the chunk, and the converter
      reads it as a single line. */
  lemma ChunkFileRoundTrip(chunk: seq<byte>)
    ensures DecodeChunkText(CreatePdfFile.TextOf(ChunkFile(chunk))) == Some(chunk)
    ensures Size(ChunkFile(chunk)) == 8 * |chunk|
    ensures chunk != [] ==> CreatePdfFile.Lines(CreatePdfFile.TextOf(ChunkFile(chunk))) == [ChunkText(chunk)]
  {
    ChunkFileText(chunk);
    ChunkRoundTrip(chunk);
    ChunkTextAscii(chunk);
    if chunk != [] {
      CreatePdfFile.OneLine(ChunkText(chunk));
    }
  }

  /** A chunk file reads back as the chunk's text. */
  lemma ChunkFileText(chunk: seq<byte>)
    ensures CreatePdfFile.TextOf(ChunkFile(chunk)) == ChunkText(chunk)
  {
    ChunkTextAscii(chunk);
    var t := ChunkText(chunk);
    assert CreatePdfFile.ReadText(ChunkFile(chunk)) == t;
    CreatePdfFile.NewlinesKeep(t);
  }

  // ---------------------------------------------------------------------------
  // Where chunks are written

  /** The part `f"_{i}.txt"` of a chunk file's name. */
  function Numbered(i: nat): (t: string)
    ensures '/' !in t && EndsWith(t, ".txt")
  {
    var t := "_" + NatToString(i) + ".txt";
    forall k | 0 <= k < |t| ensures t[k] != '/' {
      if 1 <= k < 1 + |NatToString(i)| {
        assert t[k] == NatToString(i)[k - 1];
      }
    }
    t
  }

  /** `f"{name}_{i}.txt"` with `name, ext = os.path.splitext(path)`. */
  function ChunkFileName(path: string, i: nat): (r: string)
    ensures EndsWith(r, ".txt")
    ensures Splitext(path).0 <= r
  {
    EndsWithPrepend(Splitext(path).0, Numbered(i), ".txt");
    Splitext(path).0 + Numbered(i)
  }

  /** Where `mv` puts chunk `i` when `dst` is a directory. */
  function ChunkTarget(path: string, i: nat, dst: string): string {
    Join(dst, Basename(ChunkFileName(path, i)))
  }

  /** Different chunk numbers give different names after the same text. */
  lemma NumberedInjective(r: string, i: nat, j: nat)
    requires r + Numbered(i) == r + Numbered(j)
    ensures i == j
  {
    var x, y := r + Numbered(i), r + Numbered(j);
    assert |NatToString(i)| == |NatToString(j)|;
    assert x[|r| + 1..|x| - 4] == NatToString(i);
    assert y[|r| + 1..|y| - 4] == NatToString(j);
    NatToStringInjective(i, j);
  }

  /** A chunk file's name ends in ".txt", and in `dst` it keeps its base
      name. */
  lemma ChunkNameShape(path: string, i: nat, dst: string)
    requires dst != [] && dst[|dst| - 1] != '/'
    ensures EndsWith(ChunkFileName(path, i), ".txt")
    ensures Basename(ChunkFileName(path, i)) == Basename(Splitext(path).0) + Numbered(i)
    ensures ChunkTarget(path, i, dst) == dst + "/" + (Basename(Splitext(path).0) + Numbered(i))
  {
    NameShape(Splitext(path).0, Numbered(i), dst);
  }

  lemma NameShape(r: string, t: string, dst: string)
    requires dst != [] && dst[|dst| - 1] != '/' && '/' !in t && EndsWith(t, ".txt")
    ensures EndsWith(r + t, ".txt")
    ensures Basename(r + t) == Basename(r) + t
    ensures Join(dst, Basename(r + t)) == dst + "/" + (Basename(r) + t)
  {
    EndsWithPrepend(r, t, ".txt");
    BasenameAppend(r, t);
    JoinName(dst, Basename(r + t));
  }

  /** Chunk files of one path have distinct names, and distinct places in
      the destination. */
  lemma ChunkNamesDistinct(path: string, i: nat, j: nat, dst: string)
    requires dst != [] && dst[|dst| - 1] != '/' && i != j
    ensures ChunkFileName(path, i) != ChunkFileName(path, j)
    ensures ChunkTarget(path, i, dst) != ChunkTarget(path, j, dst)
  {
    var r := Splitext(path).0;
    if ChunkFileName(path, i) == ChunkFileName(path, j) {
      NumberedInjective(r, i, j);
    }
    ChunkNameShape(path, i, dst);
    ChunkNameShape(path, j, dst);
    if ChunkTarget(path, i, dst) == ChunkTarget(path, j, dst) {
      var b := Basename(r);
      AppendCancel(dst + "/", b + Numbered(i), b + Numbered(j));
      NumberedInjective(b, i, j);
    }
  }

  /** A chunk file is written next to its source, so it lies below `dst`
      only when the source does; its place in `dst` is below `dst`. */
  lemma ChunkNameOutside(path: string, i: nat, dst: string)
    requires dst != [] && dst[|dst| - 1] != '/' && !Under(path, dst)
    ensures !Under(ChunkFileName(path, i), dst)
    ensures Under(ChunkTarget(path, i, dst), dst)
    ensures ChunkFileName(path, i) != ChunkTarget(path, i, dst)
  {
    var (r, e) := Splitext(path);
    NotUnderSwap(r, e, Numbered(i), dst);
    ChunkNameShape(path, i, dst);
    StartsWithAppend(dst + "/", Basename(r) + Numbered(i));
  }

  /** Each chunk file lands directly in `dst` under a name the PDF stage
      takes for a text file. */
  lemma ChunkTargetIsTxt(path: string, i: nat, dst: string)
    requires dst != [] && dst[|dst| - 1] != '/'
    ensures Under(ChunkTarget(path, i, dst), dst)
    ensures CreatePdfFile.IsTxt(ChunkTarget(path, i, dst))
  {
    ChunkNameShape(path, i, dst);
    var b, t := Basename(Splitext(path).0), Numbered(i);
    EndsWithPrepend(b, t, ".txt");
    TxtInDir(dst, b + t);
  }

  lemma TxtInDir(dst: string, b: string)
    requires '/' !in b && EndsWith(b, ".txt")
    ensures Under(dst + "/" + b, dst)
    ensures CreatePdfFile.IsTxt(dst + "/" + b)
  {
    StartsWithAppend(dst + "/", b);
    BasenameInDir(dst, b);
    LowerEndsWith(b, ".txt");
  }

  /** `open(name, "w")` then `mv name dst` into the directory `dst`. */
  lemma WriteMove(prev: Disk, name: string, dst: string, f: FileData)
    requires dst in prev.dirs && name != Join(dst, Basename(name))
    ensures var r, target := Move(WriteFile(prev, name, f), name, dst), Join(dst, Basename(name));
      && target in r.files && r.files[target] == f
      && name !in r.files
      && (forall q :: q != name && q != target ==>
            (q in r.files <==> q in prev.files) && (q in r.files ==> r.files[q] == prev.files[q]))
      && r.dirs == prev.dirs && r.stats == prev.stats
  {
  }

  /** The files after chunk files `0 .. |chunks| - 1` of `path` were
      written next to it and each moved into `dst`. */
  function WriteChunks(d: Disk, path: string, chunks: seq<seq<byte>>, dst: string): Disk
    decreases |chunks|
  {
    if chunks == [] then d
    else
      var i := |chunks| - 1;
      var prev := WriteChunks(d, path, chunks[..i], dst);
      var name := ChunkFileName(path, i);
      Move(WriteFile(prev, name, ChunkFile(chunks[i])), name, dst)
  }

  /** The names chunk files of `path` get, and their places in `dst`. */
  function NameOf(path: string): nat -> string {
    (i: nat) => ChunkFileName(path, i)
  }

  function TargetOf(path: string, dst: string): nat -> string {
    (i: nat) => ChunkTarget(path, i, dst)
  }

  /** After `n` chunks went through `r`, each written at `name(i)` and moved
      to `target(i)`: chunk `i` is at `target(i)` holding the chunk's text,
      nothing is left at `name(i)`, and no other file changed. */
  ghost predicate Placed(d: Disk, r: Disk, name: nat -> string, target: nat -> string,
                         chunks: seq<seq<byte>>) {
    && (forall i: nat :: i < |chunks| ==> target(i) in r.files && r.files[target(i)] == ChunkFile(chunks[i]))
    && (forall i: nat :: i < |chunks| ==> name(i) !in r.files)
    && (forall q :: (forall i: nat :: i < |chunks| ==> q != name(i) && q != target(i)) ==>
          (q in r.files <==> q in d.files) && (q in r.files ==> r.files[q] == d.files[q]))
    && r.dirs == d.dirs && r.stats == d.stats
  }

  /** No name is a target, and names and targets do not repeat. */
  ghost predicate Separate(name: nat -> string, target: nat -> string, n: nat) {
    forall i: nat, j: nat :: i < n && j < n ==>
      name(i) != target(j) && (i != j ==> name(i) != name(j) && target(i) != target(j))
  }

  lemma ChunkPathsSeparate(path: string, dst: string, n: nat)
    requires dst != [] && dst[|dst| - 1] != '/' && !Under(path, dst)
    ensures Separate(NameOf(path), TargetOf(path, dst), n)
  {
    forall i: nat, j: nat | i < n && j < n
      ensures ChunkFileName(path, i) != ChunkTarget(path, j, dst)
      ensures i != j ==> (ChunkFileName(path, i) != ChunkFileName(path, j)
                          && ChunkTarget(path, i, dst) != ChunkTarget(path, j, dst))
    {
      ChunkNameOutside(path, i, dst);
      ChunkNameOutside(path, j, dst);
      if i != j {
        ChunkNamesDistinct(path, i, j, dst);
      }
    }
  }

  /** With `dst` a directory and the source outside it, every chunk lands in
      `dst` at a place of its own. */
  lemma {:induction false} ChunksLanded(d: Disk, path: string, chunks: seq<seq<byte>>, dst: string)
    requires dst in d.dirs && dst != [] && dst[|dst| - 1] != '/' && !Under(path, dst)
    ensures Placed(d, WriteChunks(d, path, chunks, dst), NameOf(path), TargetOf(path, dst), chunks)
    decreases |chunks|
  {
    if chunks != [] {
      var n := |chunks| - 1;
      ChunksLanded(d, path, chunks[..n], dst);
      var prev := WriteChunks(d, path, chunks[..n], dst);
      var name := ChunkFileName(path, n);
      ChunkNameOutside(path, n, dst);
      WriteMove(prev, name, dst, ChunkFile(chunks[n]));
      ChunkPathsSeparate(path, dst, |chunks|);
      PlacedStep(d, prev, WriteChunks(d, path, chunks, dst), NameOf(path), TargetOf(path, dst), chunks);
    }
  }

  lemma PlacedStep(d: Disk, prev: Disk, r: Disk, name: nat -> string, target: nat -> string,
                   chunks: seq<seq<byte>>)
    requires chunks != [] && Separate(name, target, |chunks|)
    requires Placed(d, prev, name, target, chunks[..|chunks| - 1])
    requires var n := |chunks| - 1;
      && target(n) in r.files && r.files[target(n)] == ChunkFile(chunks[n])
      && name(n) !in r.files
      && (forall q :: q != name(n) && q != target(n) ==>
            (q in r.files <==> q in prev.files) && (q in r.files ==> r.files[q] == prev.files[q]))
      && r.dirs == prev.dirs && r.stats == prev.stats
    ensures Placed(d, r, name, target, chunks)
  {
    var n := |chunks| - 1;
    assert forall i :: 0 <= i < n ==> chunks[..n][i] == chunks[i];
  }

  // ---------------------------------------------------------------------------
  // One source file

  /** `open(path, "rb")` on the current disk; `None` when there is no file
      at `path` (FileNotFoundError). */
  function FileAt(d: Disk, p: string): Option<seq<byte>> {
    if p in d.files then Some(Content(d.files[p])) else None
  }

  /** The chunks of the file at `path`. */
  function FileChunks(d: Disk, path: string): seq<seq<byte>> {
    ReadChunks(FileAt(d, path), ChunkSize)
  }

  /** The sizes `os.path.getsize` reports for the chunk files, added up. */
  function SeenSizes(chunks: seq<seq<byte>>, visible: nat -> nat): nat
    decreases |chunks|
  {
    if chunks == [] then 0
    else SeenSizes(chunks[..|chunks| - 1], visible) + visible(Size(ChunkFile(chunks[|chunks| - 1])))
  }

  /** The loop over `enumerate(read_wav_in_chunks(path, chunk_size))`: each
      chunk is written to its own text file next to the source, its size
      is taken, and it is moved to `dst`. */
  method ConvertFile(d: Disk, path: string, dst: string, visible: nat -> nat)
    returns (r: Disk, size: nat)
    requires ShellWord(path) && ShellWord(dst)
    ensures r == WriteChunks(d, path, FileChunks(d, path), dst)
    ensures size == SeenSizes(FileChunks(d, path), visible)
  {
    var chunks := ReadWavInChunks(FileAt(d, path), ChunkSize);
    r, size := d, 0;
    for i := 0 to |chunks|
      invariant r == WriteChunks(d, path, chunks[..i], dst)
      invariant size == SeenSizes(chunks[..i], visible)
    {
      var newFilePath := ChunkFileName(path, i);
      var text := EncodeChunk(chunks[i]);
      ChunkTextAscii(chunks[i]);
      ConvertFileStep(d, path, chunks, i, dst, visible);
      r := WriteFile(r, newFilePath, Bytes(AsciiBytes(text)));
      size := size + visible(Size(r.files[newFilePath]));
      r := Move(r, newFilePath, dst);
    }
    TakeAll(chunks);
  }

  /** One turn of that loop: chunk `i` is written at its name and moved,
      and the size seen for it is added. */
  lemma ConvertFileStep(d: Disk, path: string, chunks: seq<seq<byte>>, i: nat, dst: string,
                        visible: nat -> nat)
    requires i < |chunks|
    ensures var name := ChunkFileName(path, i);
      WriteChunks(d, path, chunks[..i + 1], dst)
      == Move(WriteFile(WriteChunks(d, path, chunks[..i], dst), name, ChunkFile(chunks[i])), name, dst)
    ensures SeenSizes(chunks[..i + 1], visible) == SeenSizes(chunks[..i], visible) + visible(Size(ChunkFile(chunks[i])))
  {
    assert chunks[..i + 1][..i] == chunks[..i];
  }

  /** When `getsize` sees everything written, the sizes add up to eight
      bytes per byte of the source; an unreadable file adds nothing. */
  lemma SeenSizesExact(file: Option<seq<byte>>, visible: nat -> nat)
    requires forall n :: visible(n) == n
    ensures SeenSizes(ReadChunks(file, ChunkSize), visible) == if file.None? then 0 else 8 * |file.value|
  {
    var chunks := ReadChunks(file, ChunkSize);
    SeenSizesConcat(chunks, visible);
    ReadChunksSound(file, ChunkSize);
  }

  lemma {:induction false} SeenSizesConcat(chunks: seq<seq<byte>>, visible: nat -> nat)
    requires forall n :: visible(n) == n
    ensures SeenSizes(chunks, visible) == 8 * |Concat(chunks)|
    decreases |chunks|
  {
    if chunks != [] {
      var n := |chunks| - 1;
      SeenSizesConcat(chunks[..n], visible);
      ChunkFileSize(chunks[n]);
      ConcatSnoc(chunks);
    }
  }

  lemma ChunkFileSize(chunk: seq<byte>)
    ensures Size(ChunkFile(chunk)) == 8 * |chunk|
  {
  }

  lemma ConcatSnoc(chunks: seq<seq<byte>>)
    requires chunks != []
    ensures |Concat(chunks)| == |Concat(chunks[..|chunks| - 1])| + |chunks[|chunks| - 1]|
  {
    var n := |chunks| - 1;
    ConcatAppend(chunks[..n], [chunks[n]]);
    assert chunks[..n] + [chunks[n]] == chunks;
    assert Concat([chunks[n]]) == chunks[n] + Concat([]);
  }

  /** Chunk files change no directory and no statistics line. */
  lemma {:induction false} WriteChunksFrame(d: Disk, path: string, chunks: seq<seq<byte>>, dst: string)
    ensures WriteChunks(d, path, chunks, dst).dirs == d.dirs
    ensures WriteChunks(d, path, chunks, dst).stats == d.stats
    decreases |chunks|
  {
    if chunks != [] {
      WriteChunksFrame(d, path, chunks[..|chunks| - 1], dst);
    }
  }

  // ---------------------------------------------------------------------------
  // One group

  /** `f"{cwd}/textfiles_{directory}"`, the folder `main` checks and
      removes; the folder it creates and fills is `txtfiles_<directory>`. */
  function StaleDir(cwd: string, name: string): string {
    cwd + "/textfiles_" + name
  }

  /** The disk after the folder set-up of a group: `rm -rf` of the checked
      folder when it is a directory, then `mkdir txtfiles_<directory>`. */
  function Prepared(d: Disk, cwd: string, name: string): (r: Disk)
    ensures r.files.Keys <= d.files.Keys
    ensures forall p :: p in r.files ==> r.files[p] == d.files[p]
    ensures r.stats == d.stats
  {
    var cleaned := if StaleDir(cwd, name) in d.dirs then RemoveTree(d, StaleDir(cwd, name)) else d;
    MakeDir(cleaned, CreatePdfFile.InDir(cwd, name))
  }

  /** The folder that is removed is never the one that receives the text
      files: after the set-up the latter is a directory, unless a regular
      file stood in its place and `mkdir` failed, and nothing at or below it
      changed, while the former is gone when it was a directory. */
  lemma PreparedKeepsOutput(d: Disk, cwd: string, name: string)
    ensures var r, out := Prepared(d, cwd, name), CreatePdfFile.InDir(cwd, name);
      && (out in r.dirs <==> !RegularFileAt(d, out))
      && (forall p :: AtOrUnder(p, out) ==>
            (p in r.files <==> p in d.files) && (p in r.files ==> r.files[p] == d.files[p]))
      && (forall q :: q != out ==> (q in r.dirs <==> q in d.dirs && !(StaleDir(cwd, name) in d.dirs && AtOrUnder(q, StaleDir(cwd, name)))))
      && (StaleDir(cwd, name) in d.dirs ==>
            forall p :: AtOrUnder(p, StaleDir(cwd, name)) ==> p !in r.files)
      && r.stats == d.stats
  {
    var pre := cwd + "/t";
    assert StaleDir(cwd, name) == pre + ("extfiles_" + name);
    assert CreatePdfFile.InDir(cwd, name) == pre + ("xtfiles_" + name);
    forall p ensures !(AtOrUnder(p, StaleDir(cwd, name)) && AtOrUnder(p, CreatePdfFile.InDir(cwd, name))) {
      DivergingDisjoint(pre, "extfiles_" + name, "xtfiles_" + name, p);
    }
  }

  /** The files of a group, in list order, each converted into `dst`, with
      the total of the sizes seen. */
  function TextFiles(d: Disk, paths: seq<string>, dst: string, visible: nat -> nat): (Disk, nat)
    decreases |paths|
  {
    if paths == [] then (d, 0)
    else
      var (prev, total) := TextFiles(d, paths[..|paths| - 1], dst, visible);
      var chunks := FileChunks(prev, paths[|paths| - 1]);
      (WriteChunks(prev, paths[|paths| - 1], chunks, dst), total + SeenSizes(chunks, visible))
  }

  /** A group whose name and file paths can be pasted into a shell command
      line unquoted. */
  predicate ShellGroup(g: Utils.Group) {
    ShellWord(g.name) && forall k :: 0 <= k < |g.files| ==> ShellWord(g.files[k])
  }

  /** The disk after one turn of the loop over `file_struct` in `main`. */
  function TextGroup(d: Disk, cwd: string, g: Utils.Group, visible: nat -> nat): Disk {
    var (r, total) := TextFiles(Prepared(d, cwd, g.name), g.files, CreatePdfFile.InDir(cwd, g.name), visible);
    AppendStat(r, TxtSize(g.name, total))
  }

  /** One turn of the loop over `file_struct` in `main`: the folders are set
      up, every file of the group is converted, and the total size is
      appended to the statistics file. */
  method ConvertGroupText(d: Disk, cwd: string, g: Utils.Group, visible: nat -> nat) returns (r: Disk)
    requires ShellWord(cwd) && ShellGroup(g)
    ensures r == TextGroup(d, cwd, g, visible)
  {
    CreatePdfFile.GroupDirsShellWords(cwd, g.name);
    var directory := g.name;
    var dirpath := StaleDir(cwd, directory);
    r := d;
    if dirpath in r.dirs {
      r := RemoveTree(r, dirpath);
    }
    r := MakeDir(r, CreatePdfFile.InDir(cwd, directory));
    var totalDataSize;
    r, totalDataSize := ConvertFiles(r, g.files, CreatePdfFile.InDir(cwd, directory), visible);
    r := AppendStat(r, TxtSize(directory, totalDataSize));
  }

  /** `for path in tqdm(file_paths)`, with `total_data_size` reset to 0
      before it. */
  method ConvertFiles(d: Disk, paths: seq<string>, dst: string, visible: nat -> nat)
    returns (r: Disk, total: nat)
    requires ShellWord(dst) && forall k :: 0 <= k < |paths| ==> ShellWord(paths[k])
    ensures (r, total) == TextFiles(d, paths, dst, visible)
  {
    r, total := d, 0;
    for k := 0 to |paths|
      invariant r == TextFiles(d, paths[..k], dst, visible).0
      invariant total == TextFiles(d, paths[..k], dst, visible).1
    {
      var r', size := ConvertFile(r, paths[k], dst, visible);
      TextFilesStep(d, paths, k, dst, visible);
      r, total := r', total + size;
    }
    assert paths[..|paths|] == paths;
  }

  lemma TextFilesStep(d: Disk, paths: seq<string>, k: nat, dst: string, visible: nat -> nat)
    requires k < |paths|
    ensures var prev := TextFiles(d, paths[..k], dst, visible).0;
      var chunks := FileChunks(prev, paths[k]);
      && TextFiles(d, paths[..k + 1], dst, visible).0 == WriteChunks(prev, paths[k], chunks, dst)
      && TextFiles(d, paths[..k + 1], dst, visible).1
         == TextFiles(d, paths[..k], dst, visible).1 + SeenSizes(chunks, visible)
  {
    assert paths[..k + 1][..k] == paths[..k];
  }

  /** Converting the files of a group changes no directory and no
      statistics line. */
  lemma {:induction false} TextFilesFrame(d: Disk, paths: seq<string>, dst: string, visible: nat -> nat)
    ensures TextFiles(d, paths, dst, visible).0.dirs == d.dirs
    ensures TextFiles(d, paths, dst, visible).0.stats == d.stats
    decreases |paths|
  {
    if paths != [] {
      var n := |paths| - 1;
      TextFilesFrame(d, paths[..n], dst, visible);
      var prev := TextFiles(d, paths[..n], dst, visible).0;
      WriteChunksFrame(prev, paths[n], FileChunks(prev, paths[n]), dst);
    }
  }

  // ---------------------------------------------------------------------------
  // `main`

  /** The disk after the text stage has gone through `groups`. */
  function TextStage(d: Disk, cwd: string, groups: seq<Utils.Group>, visible: nat -> nat): Disk
    decreases |groups|
  {
    if groups == [] then d
    else TextGroup(TextStage(d, cwd, groups[..|groups| - 1], visible), cwd, groups[|groups| - 1], visible)
  }

  /** The text stage appends exactly one line per group, in order, each the
      text size of that group, and keeps the lines before it. */
  lemma {:induction false} TextStageStats(d: Disk, cwd: string, groups: seq<Utils.Group>, visible: nat -> nat)
    ensures var r := TextStage(d, cwd, groups, visible);
      && |r.stats| == |d.stats| + |groups|
      && r.stats[..|d.stats|] == d.stats
      && forall k :: |d.stats| <= k < |r.stats| ==>
           r.stats[k].TxtSize? && r.stats[k].group == groups[k - |d.stats|].name
    decreases |groups|
  {
    if groups != [] {
      var n := |groups| - 1;
      TextStageStats(d, cwd, groups[..n], visible);
      var prev := TextStage(d, cwd, groups[..n], visible);
      var r := TextStage(d, cwd, groups, visible);
      var line := TextGroupStats(prev, cwd, groups[n], visible);
      assert r.stats == prev.stats + [line];
      assert r.stats[..|d.stats|] == prev.stats[..|d.stats|];
      forall k | |d.stats| <= k < |r.stats|
        ensures r.stats[k].TxtSize? && r.stats[k].group == groups[k - |d.stats|].name
      {
        if k < |prev.stats| {
          assert groups[..n][k - |d.stats|] == groups[k - |d.stats|];
          assert r.stats[k] == prev.stats[k];
        } else {
          assert r.stats[k] == line;
        }
      }
    } else {
      assert d.stats[..|d.stats|] == d.stats;
    }
  }

  /** A group adds one line, its text size. */
  lemma TextGroupStats(d: Disk, cwd: string, g: Utils.Group, visible: nat -> nat) returns (line: StatLine)
    ensures TextGroup(d, cwd, g, visible).stats == d.stats + [line]
    ensures line.TxtSize? && line.group == g.name
  {
    TextFilesFrame(Prepared(d, cwd, g.name), g.files, CreatePdfFile.InDir(cwd, g.name), visible);
    PreparedKeepsOutput(d, cwd, g.name);
    line := TxtSize(g.name, TextFiles(Prepared(d, cwd, g.name), g.files, CreatePdfFile.InDir(cwd, g.name), visible).1);
  }

  /** Why `main` stops early: `os.listdir` fails on the root, `os.makedirs`
      meets a regular file at an output folder, or a page count fails on a
      file that is not a PDF. */
  datatype Failure = ListingFailed(error: Utils.OsError) | OutputIsFile(path: string) | PageCountFailed(path: string)

  /** The groups `main` works on. */
  function GroupsOf(root: string, state: Utils.RootState): seq<Utils.Group> {
    if root != [] && state.Listing? then Utils.Grouping(root, state.entries) else []
  }

  /** `main(root_directory)`: the root is grouped, the text stage runs over
      the groups, then the PDF stage over the same groups. It returns the
      disk as `main` leaves it and the exception that ends it, if any: a
      failed listing changes nothing; a failure in the PDF stage leaves the
      text stage's work and the groups done before it on disk. */
  method BigmanMain(d: Disk, root: string, state: Utils.RootState, cwd: string, visible: nat -> nat,
                    wrap: string -> seq<string>, pdfBytes: Document -> seq<byte>)
    returns (r: Disk, failure: Option<Failure>)
    requires state.Listing? ==> Utils.WellFormed(state.entries)
    requires ShellWord(cwd) && forall j :: 0 <= j < |GroupsOf(root, state)| ==> ShellGroup(GroupsOf(root, state)[j])
    ensures root != [] && state.Missing? ==> r == d && failure == Some(ListingFailed(Utils.FileNotFound(root)))
    ensures root != [] && state.NotADirectory? ==>
      r == d && failure == Some(ListingFailed(Utils.NotADirectoryError(root)))
    ensures failure.None? ==> CreatePdfFile.MainDone(TextStage(d, cwd, GroupsOf(root, state), visible), r,
                                                     cwd, GroupsOf(root, state), wrap, pdfBytes)
    ensures failure.None? ==>
      var groups, staged := GroupsOf(root, state), TextStage(d, cwd, GroupsOf(root, state), visible);
      forall j :: 0 <= j < |groups| ==> !CreatePdfFile.Blocked(staged, cwd, groups[j].name)
    ensures failure.Some? && failure.value.OutputIsFile? ==>
      var groups, staged := GroupsOf(root, state), TextStage(d, cwd, GroupsOf(root, state), visible);
      exists j :: 0 <= j < |groups| && failure.value.path == CreatePdfFile.OutDir(cwd, groups[j].name)
        && CreatePdfFile.Blocked(staged, cwd, groups[j].name)
        && CreatePdfFile.MainDone(staged, r, cwd, groups[..j], wrap, pdfBytes)
    ensures failure.Some? && failure.value.PageCountFailed? ==>
      var groups, staged := GroupsOf(root, state), TextStage(d, cwd, GroupsOf(root, state), visible);
      exists j :: 0 <= j < |groups| && CreatePdfFile.OutDir(cwd, groups[j].name) !in staged.dirs
        && failure.value.path in FilesUnder(staged, CreatePdfFile.OutDir(cwd, groups[j].name))
        && !staged.files[failure.value.path].Pdf?
        && CreatePdfFile.PagesFailed(staged, r, cwd, groups[..j + 1], wrap, pdfBytes)
    ensures WellFormed(d) && cwd in d.dirs ==>
      var groups, staged := GroupsOf(root, state), TextStage(d, cwd, GroupsOf(root, state), visible);
      (failure.None? <==> (root == [] || state.Listing?)
                          && forall j :: 0 <= j < |groups| ==> !CreatePdfFile.Blocked(staged, cwd, groups[j].name))
  {
    var fileStruct := Utils.OrganizeFilesByTopDirectories(root, state);
    if fileStruct.Err? {
      return d, Some(ListingFailed(fileStruct.error));
    }
    var groups := fileStruct.value;
    assert groups == GroupsOf(root, state);
    GroupNames(root, state);
    if WellFormed(d) && cwd in d.dirs {
      TextStageWellFormed(d, cwd, groups, visible);
    }
    var staged := RunTextStage(d, cwd, groups, visible);
    var stop;
    r, stop := CreatePdfFile.ConvertAllGroups(staged, cwd, groups, wrap, pdfBytes);
    if stop.Some? {
      if stop.value.FileExists? {
        return r, Some(OutputIsFile(stop.value.path));
      }
      return r, Some(PageCountFailed(stop.value.path));
    }
    failure := None;
  }

  /** The loop over `file_struct.items()` in `main`. */
  method RunTextStage(d: Disk, cwd: string, groups: seq<Utils.Group>, visible: nat -> nat) returns (r: Disk)
    requires ShellWord(cwd) && forall j :: 0 <= j < |groups| ==> ShellGroup(groups[j])
    ensures r == TextStage(d, cwd, groups, visible)
  {
    r := d;
    for i := 0 to |groups|
      invariant r == TextStage(d, cwd, groups[..i], visible)
    {
      assert groups[..i + 1][..i] == groups[..i];
      r := ConvertGroupText(r, cwd, groups[i], visible);
    }
    assert groups[..|groups|] == groups;
  }

  /** The group names are directory names, each once. */
  lemma GroupNames(root: string, state: Utils.RootState)
    requires state.Listing? ==> Utils.WellFormed(state.entries)
    ensures forall j :: 0 <= j < |GroupsOf(root, state)| ==> '/' !in GroupsOf(root, state)[j].name
    ensures Utils.DistinctKeys(GroupsOf(root, state))
  {
    if root != [] && state.Listing? {
      var groups := GroupsOf(root, state);
      Utils.GroupingShape(root, state.entries);
      forall j | 0 <= j < |groups| ensures '/' !in groups[j].name {
        Utils.GroupPaths(root, state.entries, groups[j]);
      }
    }
  }

  // ---------------------------------------------------------------------------
  // The text stage keeps the disk well-formed

  /** The directories above a chunk file are those above its source. */
  lemma ChunkNameAncestors(d: Disk, path: string, i: nat)
    requires AncestorsIn(d, path)
    ensures AncestorsIn(d, ChunkFileName(path, i))
  {
    var (r, e) := Splitext(path);
    forall q | Under(ChunkFileName(path, i), q) ensures q in d.dirs {
      assert Under(path, q) by {
        if !Under(path, q) {
          NotUnderSwap(r, e, Numbered(i), q);
        }
      }
    }
  }

  lemma {:induction false} WriteChunksWellFormed(d: Disk, path: string, chunks: seq<seq<byte>>, dst: string)
    requires WellFormed(d) && AncestorsIn(d, dst) && dst != [] && dst[|dst| - 1] != '/'
    requires chunks != [] ==> AncestorsIn(d, path)
    ensures WellFormed(WriteChunks(d, path, chunks, dst))
    decreases |chunks|
  {
    if chunks != [] {
      var n := |chunks| - 1;
      WriteChunksWellFormed(d, path, chunks[..n], dst);
      WriteChunksFrame(d, path, chunks[..n], dst);
      var prev := WriteChunks(d, path, chunks[..n], dst);
      var name := ChunkFileName(path, n);
      ChunkNameAncestors(prev, path, n);
      WriteFileWellFormed(prev, name, ChunkFile(chunks[n]));
      MoveWellFormed(WriteFile(prev, name, ChunkFile(chunks[n])), name, dst);
    }
  }

  lemma {:induction false} TextFilesWellFormed(d: Disk, paths: seq<string>, dst: string, visible: nat -> nat)
    requires WellFormed(d) && AncestorsIn(d, dst) && dst != [] && dst[|dst| - 1] != '/'
    ensures WellFormed(TextFiles(d, paths, dst, visible).0)
    decreases |paths|
  {
    if paths != [] {
      var n := |paths| - 1;
      TextFilesWellFormed(d, paths[..n], dst, visible);
      TextFilesFrame(d, paths[..n], dst, visible);
      var prev := TextFiles(d, paths[..n], dst, visible).0;
      var chunks := FileChunks(prev, paths[n]);
      ReadChunksSound(FileAt(prev, paths[n]), ChunkSize);
      WriteChunksWellFormed(prev, paths[n], chunks, dst);
    }
  }

  /** One group of the text stage keeps the disk well-formed and the
      working directory in place. */
  lemma TextGroupWellFormed(d: Disk, cwd: string, g: Utils.Group, visible: nat -> nat)
    requires WellFormed(d) && cwd in d.dirs && '/' !in g.name
    ensures var r := TextGroup(d, cwd, g, visible); WellFormed(r) && cwd in r.dirs
  {
    var stale, inDir := StaleDir(cwd, g.name), CreatePdfFile.InDir(cwd, g.name);
    var cleaned := if stale in d.dirs then RemoveTree(d, stale) else d;
    if stale in d.dirs {
      RemoveTreeWellFormed(d, stale);
    }
    assert inDir == cwd + "/" + ("txtfiles_" + g.name);
    ChildAncestors(cwd, "txtfiles_" + g.name);
    MakeDirWellFormed(cleaned, inDir);
    var prepared := MakeDir(cleaned, inDir);
    assert prepared == Prepared(d, cwd, g.name);
    TextFilesWellFormed(prepared, g.files, inDir, visible);
    TextFilesFrame(prepared, g.files, inDir, visible);
  }

  /** The text stage keeps the disk well-formed: no file it writes lies in
      a folder that does not exist. */
  lemma {:induction false} TextStageWellFormed(d: Disk, cwd: string, groups: seq<Utils.Group>, visible: nat -> nat)
    requires WellFormed(d) && cwd in d.dirs
    requires forall j :: 0 <= j < |groups| ==> '/' !in groups[j].name
    ensures var r := TextStage(d, cwd, groups, visible); WellFormed(r) && cwd in r.dirs
    decreases |groups|
  {
    if groups != [] {
      var n := |groups| - 1;
      TextStageWellFormed(d, cwd, groups[..n], visible);
      TextGroupWellFormed(TextStage(d, cwd, groups[..n], visible), cwd, groups[n], visible);
    }
  }
}
