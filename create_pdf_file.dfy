/** converter/create_pdf_file.py: every text file of a group becomes a PDF
    in `pdfs_<group>`, and the statistics file gets the PDF sizes and page
    counts.

    `textwrap.wrap(chunk, width=70, ...)` is a parameter `wrap`, and the
    bytes reportlab writes for a document are a parameter `pdfBytes`. */
module CreatePdfFile {
  import opened Wrappers
  import opened PyStr
  import opened Seqs
  import opened Sums
  import opened Canvas
  import opened Disk
  import opened Layout
  import Utils

  /** `chunk_size` in `convert_txt_to_pdf`. */
  const SliceSize := 10000

  // ---------------------------------------------------------------------------
  // Reading the text

  /** The characters of a file's bytes, one byte each: what UTF-8 decoding
      gives for a file of ASCII bytes. */
  function ReadText(f: FileData): (s: string)
    ensures |s| == |Content(f)|
    ensures forall k :: 0 <= k < |s| ==> s[k] as int == Content(f)[k]
  {
    seq(|Content(f)|, k requires 0 <= k < |Content(f)| => Content(f)[k] as char)
  }

  /** Universal newlines, as text mode reads them: "\r\n" and a lone '\r'
      both become '\n'. */
  function Newlines(s: string): (r: string)
    ensures '\r' !in r
    ensures |r| <= |s|
    decreases |s|
  {
    if s == [] then []
    else if s[0] == '\r' then
      if |s| > 1 && s[1] == '\n' then "\n" + Newlines(s[2..]) else "\n" + Newlines(s[1..])
    else [s[0]] + Newlines(s[1..])
  }

  /** A text without '\r' reads as it is. */
  lemma {:induction false} NewlinesKeep(s: string)
    requires '\r' !in s
    ensures Newlines(s) == s
    decreases |s|
  {
    if s != [] {
      assert s[0] in s;
      assert forall c :: c in s[1..] ==> c in s;
      NewlinesKeep(s[1..]);
      assert s == [s[0]] + s[1..];
    }
  }

  /** What `open(path, "r", encoding="utf-8")` reads from a file of ASCII
      bytes, with universal newlines. */
  function TextOf(f: FileData): string {
    Newlines(ReadText(f))
  }

  /** The index of the first '\n' in `s`, or |s|. */
  function NewlineIndex(s: string): (n: nat)
    ensures n <= |s|
    ensures n < |s| ==> s[n] == '\n'
    ensures forall k :: 0 <= k < n ==> s[k] != '\n'
  {
    if s == [] || s[0] == '\n' then 0 else 1 + NewlineIndex(s[1..])
  }

  /** The lines `for line in txt_file` yields: each keeps its '\n', the
      last one may lack it, and an empty text has no lines. */
  function Lines(s: string): (r: seq<string>)
    ensures Concat(r) == s
    ensures forall i :: 0 <= i < |r| ==> r[i] != []
    ensures forall i, k :: 0 <= i < |r| && 0 <= k < |r[i]| - 1 ==> r[i][k] != '\n'
    ensures forall i :: 0 <= i < |r| - 1 ==> r[i][|r[i]| - 1] == '\n'
    decreases |s|
  {
    if s == [] then []
    else
      var n := NewlineIndex(s);
      if n == |s| then
        assert Concat([s]) == s + Concat([]);
        [s]
      else
        var rest := Lines(s[n + 1..]);
        var r := [s[..n + 1]] + rest;
        assert r[1..] == rest;
        assert s == s[..n + 1] + s[n + 1..];
        r
  }

  /** Text without a line break is one line. */
  lemma OneLine(t: string)
    requires t != [] && '\n' !in t
    ensures Lines(t) == [t]
  {
    assert NewlineIndex(t) == |t|;
  }

  /** `[line[i:i + chunk_size] for i in range(0, len(line), chunk_size)]`:
      consecutive slices of at most 10000 characters that together are
      the line. */
  function Slices(line: string): (r: seq<string>)
    ensures Concat(r) == line
    ensures forall i :: 0 <= i < |r| ==> 0 < |r[i]| <= SliceSize
    ensures forall i :: 0 <= i < |r| - 1 ==> |r[i]| == SliceSize
  {
    ConcatChunks(line, SliceSize);
    Chunks(line, SliceSize)
  }

  /** `wrapped_data` after extending it with the wrapped pieces of each
      slice in turn. */
  function WrapAll(slices: seq<string>, wrap: string -> seq<string>): seq<string> {
    if slices == [] then []
    else WrapAll(slices[..|slices| - 1], wrap) + wrap(slices[|slices| - 1])
  }

  /** The pieces drawn for the lines `lines`, in order. */
  function WrappedLines(lines: seq<string>, wrap: string -> seq<string>): seq<string> {
    if lines == [] then []
    else WrappedLines(lines[..|lines| - 1], wrap) + WrapAll(Slices(lines[|lines| - 1]), wrap)
  }

  /** `wrap.strip()` for every piece. */
  function StripAll(ls: seq<string>): (r: seq<string>)
    ensures |r| == |ls|
    ensures forall k :: 0 <= k < |ls| ==> r[k] == Strip(ls[k])
  {
    Map(ls, Strip)
  }

  lemma StripAllAppend(a: seq<string>, b: seq<string>)
    ensures StripAll(a + b) == StripAll(a) + StripAll(b)
  {
    MapAppend(a, b, Strip);
  }

  /** The document `convert_txt_to_pdf` saves for the contents of a file. */
  function ConvertedDoc(f: FileData, wrap: string -> seq<string>): Document {
    LayOut(StripAll(WrappedLines(Lines(TextOf(f)), wrap)))
  }

  function PdfFile(doc: Document, pdfBytes: Document -> seq<byte>): FileData {
    Pdf(doc, pdfBytes(doc))
  }

  /** `os.path.join(output_folder, splitext(basename(txt))[0] + ".pdf")`:
      a ".pdf" file directly inside the output folder. */
  function PdfPathFor(outputFolder: string, txtPath: string): string {
    Join(outputFolder, PdfName(txtPath))
  }

  /** The PDF path ends in ".pdf" and, for an output folder written
      without a trailing separator, names a file directly inside it. */
  lemma PdfPathInside(outputFolder: string, txtPath: string)
    ensures EndsWith(PdfPathFor(outputFolder, txtPath), ".pdf")
    ensures outputFolder != [] && outputFolder[|outputFolder| - 1] != '/' ==>
              var r := PdfPathFor(outputFolder, txtPath);
              Under(r, outputFolder) && '/' !in r[|outputFolder| + 1..]
  {
    JoinInside(outputFolder, PdfName(txtPath));
  }

  /** `splitext(basename(txt))[0] + ".pdf"`. */
  function PdfName(txtPath: string): (name: string)
    ensures IsName(name) && EndsWith(name, ".pdf")
  {
    var bn := Basename(txtPath);
    var base := Splitext(bn).0;
    PrefixHasNoSlash(bn, base);
    PdfSuffixName(base);
    base + ".pdf"
  }

  lemma PdfSuffixName(base: string)
    requires '/' !in base
    ensures IsName(base + ".pdf") && EndsWith(base + ".pdf", ".pdf")
  {
    var name := base + ".pdf";
    assert name[|base|..] == ".pdf";
    forall k | 0 <= k < |name| ensures name[k] != '/' {
      if k < |base| {
        assert name[k] == base[k];
      } else {
        assert name[k] == ".pdf"[k - |base|];
      }
    }
  }

  lemma PrefixHasNoSlash(s: string, prefix: string)
    requires '/' !in s && |prefix| <= |s| && s[..|prefix|] == prefix
    ensures '/' !in prefix
  {
    assert forall k :: 0 <= k < |prefix| ==> prefix[k] == s[k];
  }

  /** A name joined to a directory path lies directly inside it and keeps
      the name's ending. */
  lemma JoinInside(dir: string, name: string)
    requires IsName(name) && EndsWith(name, ".pdf")
    ensures EndsWith(Join(dir, name), ".pdf")
    ensures dir != [] && dir[|dir| - 1] != '/' ==>
              Under(Join(dir, name), dir) && '/' !in Join(dir, name)[|dir| + 1..]
  {
    var r := Join(dir, name);
    assert r[|r| - 4..] == name[|name| - 4..];
    if dir != [] && dir[|dir| - 1] != '/' {
      JoinName(dir, name);
      assert (dir + "/" + name)[|dir| + 1..] == name;
    }
  }

  // ---------------------------------------------------------------------------
  // `convert_txt_to_pdf`

  /** Converts one text file: the output folder is created, every line is
      cut into slices, every slice wrapped, and every piece drawn with the
      cursor moving down the page; the saved document is written to the
      PDF path, which is returned with the new disk. Creating the output
      folder raises `FileExistsError` when a regular file stands at its
      path; the error names that path. */
  method ConvertTxtToPdf(d: Disk, txtPath: string, outputFolder: string,
                         wrap: string -> seq<string>, pdfBytes: Document -> seq<byte>)
    returns (r: Result<(Disk, string), string>)
    requires txtPath in d.files
    ensures r.Err? <==> RegularFileAt(d, outputFolder)
    ensures r.Err? ==> r.error == outputFolder
    ensures r.Ok? ==> r.value.1 == PdfPathFor(outputFolder, txtPath)
    ensures r.Ok? ==> r.value.0 == WriteFile(MakeDir(d, outputFolder), r.value.1,
                                             PdfFile(ConvertedDoc(d.files[txtPath], wrap), pdfBytes))
  {
    if RegularFileAt(d, outputFolder) {
      return Err(outputFolder);
    }
    var d1 := MakeDir(d, outputFolder);
    var baseName := Splitext(Basename(txtPath)).0;
    var pdfPath := Join(outputFolder, baseName + ".pdf");
    var doc := DrawText(d1.files[txtPath], wrap);
    r := Ok((WriteFile(d1, pdfPath, PdfFile(doc, pdfBytes)), pdfPath));
  }

  /** The canvas part of `convert_txt_to_pdf`: every line of the file is
      cut into slices, every slice wrapped, and every piece drawn with the
      cursor moving down the page; the document saved is returned. */
  method DrawText(f: FileData, wrap: string -> seq<string>) returns (doc: Document)
    ensures doc == LayOut(StripAll(WrappedLines(Lines(TextOf(f)), wrap)))
  {
    var c := new PdfCanvas();
    var currentY := Top;
    var lines := Lines(TextOf(f));
    ghost var drawn: seq<string> := [];
    assert Holds(c.closed, c.current, drawn);
    for li := 0 to |lines|
      invariant drawn == StripAll(WrappedLines(lines[..li], wrap))
      invariant Holds(c.closed, c.current, drawn)
      invariant currentY == Cursor(c.current)
    {
      var wrappedData := WrapSlices(Slices(lines[li]), wrap);
      currentY := DrawPieces(c, currentY, wrappedData, drawn);
      LinesSnoc(lines, li, wrap);
      drawn := drawn + StripAll(wrappedData);
    }
    assert lines[..|lines|] == lines;
    SavedIsLayOut(c.closed, c.current, drawn);
    doc := c.Saved();
  }

  lemma LinesSnoc(lines: seq<string>, i: nat, wrap: string -> seq<string>)
    requires i < |lines|
    ensures StripAll(WrappedLines(lines[..i + 1], wrap))
         == StripAll(WrappedLines(lines[..i], wrap)) + StripAll(WrapAll(Slices(lines[i]), wrap))
  {
    assert lines[..i + 1][..i] == lines[..i];
    StripAllAppend(WrappedLines(lines[..i], wrap), WrapAll(Slices(lines[i]), wrap));
  }

  /** The loop that fills `wrapped_data` for one line. */
  method WrapSlices(slices: seq<string>, wrap: string -> seq<string>) returns (wrappedData: seq<string>)
    ensures wrappedData == WrapAll(slices, wrap)
  {
    wrappedData := [];
    for ci := 0 to |slices|
      invariant wrappedData == WrapAll(slices[..ci], wrap)
    {
      wrappedData := wrappedData + wrap(slices[ci]);
      assert slices[..ci + 1][..ci] == slices[..ci];
    }
    assert slices[..|slices|] == slices;
  }

  /** The loop `for wrap in wrapped_data`: a new page when the cursor is
      below the margin, then the stripped piece drawn at the cursor, which
      moves down one line. */
  method DrawPieces(c: PdfCanvas, currentY: int, pieces: seq<string>, ghost drawn: seq<string>)
    returns (y: int)
    requires Holds(c.closed, c.current, drawn) && currentY == Cursor(c.current)
    modifies c
    ensures Holds(c.closed, c.current, drawn + StripAll(pieces)) && y == Cursor(c.current)
  {
    y := currentY;
    ghost var done: seq<string> := [];
    assert drawn + done == drawn;
    for wi := 0 to |pieces|
      invariant done == StripAll(pieces[..wi])
      invariant Holds(c.closed, c.current, drawn + done)
      invariant y == Cursor(c.current)
    {
      var text := Strip(pieces[wi]);
      y := DrawLine(c, y, text, drawn + done);
      StripSnoc(pieces, wi);
      assert drawn + done + [text] == drawn + (done + [text]);
      done := done + [text];
    }
    assert pieces[..|pieces|] == pieces;
  }

  /** One turn of that loop. */
  method DrawLine(c: PdfCanvas, currentY: int, text: string, ghost drawn: seq<string>)
    returns (y: int)
    requires Holds(c.closed, c.current, drawn) && currentY == Cursor(c.current)
    modifies c
    ensures Holds(c.closed, c.current, drawn + [text]) && y == Cursor(c.current)
  {
    y := currentY;
    PageBreakWhenFull(c.current);
    if y < Margin {
      DrawOnNewPage(c.closed, c.current, drawn, text);
      c.ShowPage();
      y := Top;
    } else {
      DrawOnPage(c.closed, c.current, drawn, text);
    }
    c.DrawString(Margin, y, text);
    y := y - LineHeight;
  }

  lemma StripSnoc(pieces: seq<string>, i: nat)
    requires i < |pieces|
    ensures StripAll(pieces[..i + 1]) == StripAll(pieces[..i]) + [Strip(pieces[i])]
  {
    assert pieces[..i + 1] == pieces[..i] + [pieces[i]];
    StripAllAppend(pieces[..i], [pieces[i]]);
  }

  // ---------------------------------------------------------------------------
  // `batch_convert_txt_to_pdf`

  /** `file.lower().endswith(".txt")` for the file name of `p`. */
  predicate IsTxt(p: string)
    ensures EndsWith(Basename(p), ".txt") ==> IsTxt(p)
  {
    if EndsWith(Basename(p), ".txt") then LowerEndsWith(Basename(p), ".txt"); true
    else EndsWith(Lower(Basename(p)), ".txt")
  }

  /** The text files the walk of `dir` converts. */
  function TxtFiles(d: Disk, dir: string): set<string> {
    set p | p in d.files && Under(p, dir) && IsTxt(p)
  }

  /** The PDF file written for a text file. */
  function Converted(f: FileData, wrap: string -> seq<string>, pdfBytes: Document -> seq<byte>): FileData {
    PdfFile(ConvertedDoc(f, wrap), pdfBytes)
  }

  /** `convert_txt_to_pdf` as a map from file contents to PDF file. */
  function Converter(wrap: string -> seq<string>, pdfBytes: Document -> seq<byte>): FileData -> FileData {
    f => Converted(f, wrap, pdfBytes)
  }

  /** The PDF path chosen for each text path. */
  function PathIn(outputFolder: string): string -> string {
    q => PdfPathFor(outputFolder, q)
  }

  /** The size `os.path.getsize` reports for the PDF made from the file at
      `q`. */
  function SizeAfter(files: map<string, FileData>, convert: FileData -> FileData): string -> nat {
    q => if q in files then Size(convert(files[q])) else 0
  }

  /** The paths written for the text files `srcs`. */
  function Targets(srcs: set<string>, path: string -> string): set<string> {
    set q | q in srcs :: path(q)
  }

  /** A PDF path never passes the ".txt" test, so conversions never feed
      each other. */
  lemma PdfIsNotTxt(p: string)
    requires EndsWith(p, ".pdf")
    ensures !IsTxt(p)
  {
    var b := Basename(p);
    assert forall k :: |p| - 4 <= k < |p| ==> p[k] == ".pdf"[k - (|p| - 4)];
    assert |b| >= 4;
    assert b[|b| - 3] == p[|p| - 3] == 'p';
    assert Lower(b)[|b| - 3] == 'p';
  }

  /** What the batch has done once the text files `done` are converted:
      directories and statistics as before (with the output folder made
      once there was a conversion), every other file untouched, the target
      paths of `done` added, and each of them holding the conversion of one
      of the text files that map to it. */
  ghost predicate Batched(d: Disk, done: set<string>, outputFolder: string,
                          path: string -> string, convert: FileData -> FileData, r: Disk) {
    && r.stats == d.stats
    && r.dirs == (if done == {} then d.dirs else d.dirs + {outputFolder})
    && r.files.Keys == d.files.Keys + Targets(done, path)
    && (forall p :: p in r.files && p !in Targets(done, path) ==> r.files[p] == d.files[p])
    && (forall p :: p in Targets(done, path) ==>
          exists q :: q in done && q in d.files && p == path(q) && r.files[p] == convert(d.files[q]))
  }

  /** Converting one more text file keeps `Batched`. */
  lemma BatchedStep(d: Disk, done: set<string>, outputFolder: string,
                    path: string -> string, convert: FileData -> FileData, r: Disk, q: string)
    requires Batched(d, done, outputFolder, path, convert, r)
    requires q in d.files && !RegularFileAt(r, outputFolder)
    ensures Batched(d, done + {q}, outputFolder, path, convert,
                    WriteFile(MakeDir(r, outputFolder), path(q), convert(d.files[q])))
  {
    var r' := WriteFile(MakeDir(r, outputFolder), path(q), convert(d.files[q]));
    assert r'.files == r.files[path(q) := convert(d.files[q])];
    FilesStep(d.files, done, path, convert, r.files, q);
  }

  /** The file part of `BatchedStep`: writing the conversion of `q` at its
      path adds that path to the targets and keeps every other file. */
  lemma FilesStep(orig: map<string, FileData>, done: set<string>,
                  path: string -> string, convert: FileData -> FileData,
                  files: map<string, FileData>, q: string)
    requires files.Keys == orig.Keys + Targets(done, path)
    requires forall p :: p in files && p !in Targets(done, path) ==> files[p] == orig[p]
    requires forall p :: p in Targets(done, path) ==>
               exists q' :: q' in done && q' in orig && p == path(q') && files[p] == convert(orig[q'])
    requires q in orig
    ensures var files' := files[path(q) := convert(orig[q])];
      && files'.Keys == orig.Keys + Targets(done + {q}, path)
      && (forall p :: p in files' && p !in Targets(done + {q}, path) ==> files'[p] == orig[p])
      && (forall p :: p in Targets(done + {q}, path) ==>
            exists q' :: q' in done + {q} && q' in orig && p == path(q') && files'[p] == convert(orig[q']))
  {
    var files' := files[path(q) := convert(orig[q])];
    assert Targets(done + {q}, path) == Targets(done, path) + {path(q)};
    forall p | p in files' && p !in Targets(done + {q}, path) ensures files'[p] == orig[p] {
      assert p != path(q);
    }
    forall p | p in Targets(done + {q}, path)
      ensures exists q' :: q' in done + {q} && q' in orig && p == path(q')
                           && files'[p] == convert(orig[q'])
    {
      if p != path(q) {
        var q' :| q' in done && q' in orig && p == path(q') && files[p] == convert(orig[q']);
        assert q' in done + {q};
      } else {
        assert q in done + {q};
      }
    }
  }

  /** Converts every ".txt" file (any case) found by walking the input
      folder and returns the new disk with the sum of the sizes of the PDFs
      written. When two text files map to the same PDF path the later one
      overwrites the earlier; the walk order is not fixed here, so the model
      states which files can hold each PDF path and not which one does. The
      first conversion raises `FileExistsError` when a regular file stands
      at the output folder's path, and nothing has changed by then. */
  method BatchConvertTxtToPdf(d: Disk, inputFolder: string, outputFolder: string,
                              wrap: string -> seq<string>, pdfBytes: Document -> seq<byte>)
    returns (res: Result<(Disk, nat), string>)
    ensures res.Err? <==> RegularFileAt(d, outputFolder) && TxtFiles(d, inputFolder) != {}
    ensures res.Err? ==> res.error == outputFolder
    ensures res.Ok? ==> Batched(d, TxtFiles(d, inputFolder), outputFolder, PathIn(outputFolder),
                                Converter(wrap, pdfBytes), res.value.0)
    ensures res.Ok? ==> res.value.1 == SumOf(TxtFiles(d, inputFolder), SizeAfter(d.files, Converter(wrap, pdfBytes)))
  {
    ghost var path, convert := PathIn(outputFolder), Converter(wrap, pdfBytes);
    ghost var size := SizeAfter(d.files, convert);
    BatchedStart(d, outputFolder, path, convert);
    PathsNotTxt(outputFolder);
    var todo := FilesUnder(d, inputFolder);
    ghost var done: set<string> := {};
    var r, total := d, 0;
    while todo != {}
      invariant todo <= FilesUnder(d, inputFolder)
      invariant done == TxtFiles(d, inputFolder) - todo
      invariant Batched(d, done, outputFolder, path, convert, r)
      invariant total == SumOf(done, size)
      invariant RegularFileAt(d, outputFolder) ==> done == {}
      decreases |todo|
    {
      var p :| p in todo;
      WalkStep(d, inputFolder, done, todo, p);
      todo := todo - {p};
      if IsTxt(p) {
        BatchedFolder(d, done, outputFolder, path, convert, r);
        var one := ConvertOne(d, done, outputFolder, wrap, pdfBytes, r, total, p, path, convert, IsTxt);
        if one.Err? {
          assert p in TxtFiles(d, inputFolder);
          return Err(one.error);
        }
        r, total := one.value.0, one.value.1;
        done := done + {p};
      }
    }
    WalkDone(d, inputFolder, done, outputFolder, path, convert, r);
    res := Ok((r, total));
  }

  /** Until the first conversion, the output folder is as it was. */
  lemma BatchedFolder(d: Disk, done: set<string>, outputFolder: string,
                      path: string -> string, convert: FileData -> FileData, r: Disk)
    requires Batched(d, done, outputFolder, path, convert, r)
    ensures RegularFileAt(r, outputFolder) <==> RegularFileAt(d, outputFolder) && done == {}
  {
    if done == {} {
      assert Targets(done, path) == {};
    }
  }

  lemma BatchedStart(d: Disk, outputFolder: string, path: string -> string, convert: FileData -> FileData)
    ensures Batched(d, {}, outputFolder, path, convert, d)
  {
    assert Targets({}, path) == {};
  }

  /** Once the walk is over, every text file has been converted. */
  lemma WalkDone(d: Disk, inputFolder: string, done: set<string>, outputFolder: string,
                 path: string -> string, convert: FileData -> FileData, r: Disk)
    requires done == TxtFiles(d, inputFolder) - {}
    requires Batched(d, done, outputFolder, path, convert, r)
    ensures done == TxtFiles(d, inputFolder)
    ensures Batched(d, TxtFiles(d, inputFolder), outputFolder, path, convert, r)
  {
    assert done == TxtFiles(d, inputFolder);
  }

  /** No PDF path the batch writes is itself a text file to convert. */
  lemma PathsNotTxt(outputFolder: string)
    ensures forall q :: !IsTxt(PathIn(outputFolder)(q))
  {
    forall q ensures !IsTxt(PathIn(outputFolder)(q)) {
      PdfPathInside(outputFolder, q);
      PdfIsNotTxt(PdfPathFor(outputFolder, q));
    }
  }

  /** The body of the walk loop for one text file: convert it and add the
      size of its PDF. `path`, `convert` and `isTxt` are `PathIn`,
      `Converter` and `IsTxt`, of which only the values at `p` matter
      here. */
  method ConvertOne(ghost d: Disk, ghost done: set<string>, outputFolder: string,
                    wrap: string -> seq<string>, pdfBytes: Document -> seq<byte>,
                    r: Disk, total: nat, p: string,
                    ghost path: string -> string, ghost convert: FileData -> FileData,
                    ghost isTxt: string -> bool)
    returns (res: Result<(Disk, nat), string>)
    requires Batched(d, done, outputFolder, path, convert, r)
    requires total == SumOf(done, SizeAfter(d.files, convert))
    requires p in d.files && isTxt(p) && p !in done
    requires forall q :: !isTxt(path(q))
    requires path(p) == PdfPathFor(outputFolder, p)
    requires convert(d.files[p]) == Converted(d.files[p], wrap, pdfBytes)
    ensures res.Err? <==> RegularFileAt(r, outputFolder)
    ensures res.Err? ==> res.error == outputFolder
    ensures res.Ok? ==> Batched(d, done + {p}, outputFolder, path, convert, res.value.0)
    ensures res.Ok? ==> res.value.1 == SumOf(done + {p}, SizeAfter(d.files, convert))
  {
    SourceUntouched(d, done, outputFolder, path, convert, r, isTxt, p);
    var conv := ConvertTxtToPdf(r, p, outputFolder, wrap, pdfBytes);
    if conv.Err? {
      return Err(conv.error);
    }
    var r', pdf := conv.value.0, conv.value.1;
    ghost var sum := ConvertedAt(d, done, outputFolder, path, convert, r, p, r', pdf, wrap, pdfBytes);
    res := Ok((r', total + Size(r'.files[pdf])));
  }

  /** `ConvertedOne` for what `convert_txt_to_pdf` returns. */
  lemma ConvertedAt(d: Disk, done: set<string>, outputFolder: string,
                    path: string -> string, convert: FileData -> FileData,
                    r: Disk, p: string, r': Disk, pdf: string,
                    wrap: string -> seq<string>, pdfBytes: Document -> seq<byte>)
    returns (sum: nat)
    requires Batched(d, done, outputFolder, path, convert, r)
    requires p in d.files && p !in done && p in r.files && r.files[p] == d.files[p]
    requires pdf == path(p) && convert(d.files[p]) == Converted(d.files[p], wrap, pdfBytes)
    requires !RegularFileAt(r, outputFolder)
    requires r' == WriteFile(MakeDir(r, outputFolder), pdf, PdfFile(ConvertedDoc(r.files[p], wrap), pdfBytes))
    ensures pdf in r'.files
    ensures Batched(d, done + {p}, outputFolder, path, convert, r')
    ensures sum == SumOf(done + {p}, SizeAfter(d.files, convert))
    ensures sum == SumOf(done, SizeAfter(d.files, convert)) + Size(r'.files[pdf])
  {
    ConvertedOne(d, done, outputFolder, path, convert, r, p, r');
    sum := SumOf(done + {p}, SizeAfter(d.files, convert));
  }

  /** Converting one more source keeps `Batched` and adds the size of its
      output to the sum. */
  lemma ConvertedOne(d: Disk, done: set<string>, outputFolder: string,
                     path: string -> string, convert: FileData -> FileData,
                     r: Disk, p: string, r': Disk)
    requires Batched(d, done, outputFolder, path, convert, r)
    requires p in d.files && p !in done && !RegularFileAt(r, outputFolder)
    requires r' == WriteFile(MakeDir(r, outputFolder), path(p), convert(d.files[p]))
    ensures Batched(d, done + {p}, outputFolder, path, convert, r')
    ensures SumOf(done + {p}, SizeAfter(d.files, convert))
         == SumOf(done, SizeAfter(d.files, convert)) + Size(r'.files[path(p)])
  {
    BatchedStep(d, done, outputFolder, path, convert, r, p);
    SumOfAdd(done, p, SizeAfter(d.files, convert));
  }

  /** Taking one more file off the walk. */
  lemma WalkStep(d: Disk, dir: string, done: set<string>, todo: set<string>, p: string)
    requires todo <= FilesUnder(d, dir) && done == TxtFiles(d, dir) - todo && p in todo
    ensures p in d.files
    ensures IsTxt(p) ==> done + {p} == TxtFiles(d, dir) - (todo - {p}) && p !in done
    ensures !IsTxt(p) ==> done == TxtFiles(d, dir) - (todo - {p})
  {
  }

  /** A source file still holds what it held before the batch began, since
      no output path is a source. */
  lemma SourceUntouched(d: Disk, done: set<string>, outputFolder: string,
                        path: string -> string, convert: FileData -> FileData, r: Disk,
                        isTxt: string -> bool, p: string)
    requires Batched(d, done, outputFolder, path, convert, r)
    requires forall q :: !isTxt(path(q))
    requires p in d.files && isTxt(p)
    ensures p in r.files && r.files[p] == d.files[p]
  {
    assert p !in Targets(done, path);
  }

  // ---------------------------------------------------------------------------
  // `count_pages` and the page count of a folder

  /** `len(PdfReader(path).pages)`: the pages of a PDF the converter wrote;
      any other file makes the reader raise. */
  function CountPages(f: FileData): (r: Option<nat>)
    ensures r.Some? <==> f.Pdf?
    ensures f.Pdf? ==> r.value == |f.doc|
  {
    match f
    case Pdf(doc, _) => Some(|doc|)
    case Bytes(_) => None
  }

  /** The page count of the file at `q`, as `count_pages` reports it. */
  function PagesAt(files: map<string, FileData>): string -> nat {
    q => if q in files && files[q].Pdf? then |files[q].doc| else 0
  }

  /** Every file below `dir` is a PDF the converter wrote. */
  ghost predicate AllPdf(d: Disk, dir: string) {
    forall p :: p in FilesUnder(d, dir) ==> d.files[p].Pdf?
  }

  /** The walk of `out_dir` and the loop adding `count_pages` of every file:
      the sum of the page counts, or the first file that is not a PDF. */
  method CountFolderPages(d: Disk, dir: string) returns (r: Result<nat, string>)
    ensures r.Ok? <==> AllPdf(d, dir)
    ensures r.Ok? ==> r.value == SumOf(FilesUnder(d, dir), PagesAt(d.files))
    ensures r.Err? ==> r.error in FilesUnder(d, dir) && !d.files[r.error].Pdf?
  {
    r := SumPages(d.files, FilesUnder(d, dir));
  }

  /** The loop over the files `all`, in any order. */
  method SumPages(files: map<string, FileData>, all: set<string>) returns (r: Result<nat, string>)
    requires all <= files.Keys
    ensures r.Ok? <==> forall p :: p in all ==> files[p].Pdf?
    ensures r.Ok? ==> r.value == SumOf(all, PagesAt(files))
    ensures r.Err? ==> r.error in all && !files[r.error].Pdf?
  {
    var todo := all;
    var pageCount := 0;
    while todo != {}
      invariant todo <= all
      invariant forall p :: p in all - todo ==> files[p].Pdf?
      invariant pageCount == SumOf(all - todo, PagesAt(files))
      decreases |todo|
    {
      var p :| p in todo;
      var count := CountPages(files[p]);
      if count.None? {
        return Err(p);
      }
      PagesStep(files, all, todo, p);
      pageCount := pageCount + count.value;
      todo := todo - {p};
    }
    assert todo == {} && all - todo == all;
    return Ok(pageCount);
  }

  lemma PagesStep(files: map<string, FileData>, all: set<string>, todo: set<string>, p: string)
    requires p in todo && todo <= all && p in files && files[p].Pdf?
    ensures all - (todo - {p}) == (all - todo) + {p}
    ensures SumOf(all - (todo - {p}), PagesAt(files)) == SumOf(all - todo, PagesAt(files)) + |files[p].doc|
  {
    assert all - (todo - {p}) == (all - todo) + {p};
    SumOfAdd(all - todo, p, PagesAt(files));
  }

  // ---------------------------------------------------------------------------
  // `main`: one group after another

  /** `f"{cwd}/txtfiles_{directory}"`. */
  function InDir(cwd: string, name: string): string {
    cwd + "/txtfiles_" + name
  }

  /** The folders of a group are shell words when the working directory
      and the group name are. */
  lemma GroupDirsShellWords(cwd: string, name: string)
    requires ShellWord(cwd) && ShellWord(name)
    ensures ShellWord(InDir(cwd, name)) && ShellWord(OutDir(cwd, name))
  {
    var t, p := "/txtfiles_", "/pdfs_";
    assert forall k :: 0 <= k < |t| ==> t[k] == '/' || t[k] == '_' || 'a' <= t[k] <= 'z';
    assert forall k :: 0 <= k < |p| ==> p[k] == '/' || p[k] == '_' || 'a' <= p[k] <= 'z';
    ShellWordConcat(cwd, t);
    ShellWordConcat(cwd + t, name);
    ShellWordConcat(cwd, p);
    ShellWordConcat(cwd + p, name);
  }

  /** `f"{cwd}/pdfs_{directory}"`. */
  function OutDir(cwd: string, name: string): string {
    cwd + "/pdfs_" + name
  }

  /** The output folder after `rm -rf` (only when it is a directory) and
      `mkdir`, which fails when a regular file stands there. */
  function Recreated(d: Disk, outDir: string): (r: Disk)
    ensures r.dirs == (if outDir in d.dirs then set q | q in d.dirs && !AtOrUnder(q, outDir) else d.dirs)
                      + (if RegularFileAt(d, outDir) then {} else {outDir})
    ensures outDir in r.dirs <==> !RegularFileAt(d, outDir)
    ensures RegularFileAt(r, outDir) <==> RegularFileAt(d, outDir)
    ensures forall p :: p in r.files <==> p in d.files && !(outDir in d.dirs && AtOrUnder(p, outDir))
    ensures forall p :: p in r.files ==> r.files[p] == d.files[p]
    ensures r.stats == d.stats
  {
    if outDir in d.dirs then MakeDir(RemoveTree(d, outDir), outDir) else MakeDir(d, outDir)
  }

  /** The text files a group converts: those below its input folder, when
      that folder is a directory. */
  function Sources(d: Disk, cwd: string, name: string): set<string> {
    if InDir(cwd, name) in d.dirs then TxtFiles(d, InDir(cwd, name)) else {}
  }

  /** A group whose first conversion raises `FileExistsError`: a regular
      file stands at its output folder and it has text files to convert. */
  predicate Blocked(d: Disk, cwd: string, name: string) {
    RegularFileAt(d, OutDir(cwd, name)) && Sources(d, cwd, name) != {}
  }

  /** Why the PDF stage stops: `os.makedirs` met a regular file at the
      output folder, or the page count met a file that is not a PDF. */
  datatype PdfError = FileExists(path: string) | NotAPdf(path: string)

  /** The line with the PDF size, written only when the input folder is a
      directory. */
  ghost function SizeLine(d: Disk, cwd: string, name: string,
                    wrap: string -> seq<string>, pdfBytes: Document -> seq<byte>): seq<StatLine> {
    if InDir(cwd, name) in d.dirs then
      [PdfSize(name, SumOf(TxtFiles(d, InDir(cwd, name)), SizeAfter(d.files, Converter(wrap, pdfBytes))))]
    else []
  }

  /** What `files` holds below the output folder `outDir` of a group with
      sources `srcs`: the converted sources at their paths (each path
      holding the conversion of one source that maps to it) and, when the
      folder was not a directory before, the files that were already
      below it. */
  ghost predicate OutputsBy(d: Disk, files: map<string, FileData>, outDir: string, srcs: set<string>,
                            path: string -> string, convert: FileData -> FileData) {
    forall p :: Under(p, outDir) ==>
      && (p in files <==> p in Targets(srcs, path) || (outDir !in d.dirs && p in d.files))
      && (p in files && p !in Targets(srcs, path) ==> files[p] == d.files[p])
      && (p in Targets(srcs, path) ==>
            exists q :: q in srcs && q in d.files && p == path(q) && files[p] == convert(d.files[q]))
  }

  /** What a group's output folder holds after the group: the PDFs of its
      sources and, when the folder was not a directory before, the files
      that were already below it. */
  ghost predicate Outputs(d: Disk, files: map<string, FileData>, cwd: string, name: string,
                          wrap: string -> seq<string>, pdfBytes: Document -> seq<byte>) {
    OutputsBy(d, files, OutDir(cwd, name), Sources(d, cwd, name),
              PathIn(OutDir(cwd, name)), Converter(wrap, pdfBytes))
  }

  /** No file outside `dir` (and `dir` itself) changed. */
  ghost predicate FilesKept(before: map<string, FileData>, after: map<string, FileData>, dir: string) {
    forall p :: !AtOrUnder(p, dir) ==>
      (p in after <==> p in before) && (p in after ==> after[p] == before[p])
  }

  /** One turn of the loop in `main`: the output folder is recreated, the
      input folder (when it is a directory) converted and its PDF size
      recorded, then the pages below the output folder are counted and
      recorded. It returns the disk as the turn leaves it and the exception
      that ends it, if any. A regular file at the output folder makes the
      first conversion raise before anything changed, and the group fails so
      exactly when it has text files to convert. A file below the output
      folder that is not a PDF makes the page count raise, after the PDFs
      and the size line are written; that can only be a file that was there
      before, in an output folder that was not a directory. */
  method ConvertGroup(d: Disk, cwd: string, name: string,
                      wrap: string -> seq<string>, pdfBytes: Document -> seq<byte>)
    returns (r: Disk, failure: Option<PdfError>)
    requires '/' !in name
    requires ShellWord(cwd) && ShellWord(name)
    ensures (failure.Some? && failure.value.FileExists?) <==> Blocked(d, cwd, name)
    ensures failure.Some? && failure.value.FileExists? ==> failure.value.path == OutDir(cwd, name) && r == d
    ensures failure.Some? && failure.value.NotAPdf? ==> var outDir := OutDir(cwd, name);
              && outDir !in d.dirs && failure.value.path in FilesUnder(d, outDir)
              && !d.files[failure.value.path].Pdf?
              && r.stats == d.stats + SizeLine(d, cwd, name, wrap, pdfBytes)
    ensures failure.None? || failure.value.NotAPdf? ==>
              && FilesKept(d.files, r.files, OutDir(cwd, name))
              && Outputs(d, r.files, cwd, name, wrap, pdfBytes)
              && r.dirs == Recreated(d, OutDir(cwd, name)).dirs
    ensures failure.None? ==>
              r.stats == d.stats + SizeLine(d, cwd, name, wrap, pdfBytes)
                         + [PdfPages(name, SumOf(FilesUnder(r, OutDir(cwd, name)), PagesAt(r.files)))]
  {
    var inDir, outDir := InDir(cwd, name), OutDir(cwd, name);
    var d1 := Recreated(d, outDir);
    InputKept(d, cwd, name);
    var d2 := d1;
    if inDir in d1.dirs {
      var batch := BatchConvertTxtToPdf(d1, inDir, outDir, wrap, pdfBytes);
      if batch.Err? {
        return d, Some(FileExists(batch.error));
      }
      var total;
      d2, total := batch.value.0, batch.value.1;
      SizeKept(d, d1, inDir, wrap, pdfBytes);
      GroupFiles(d, d1, d2, cwd, name, wrap, pdfBytes);
      d2 := AppendStat(d2, PdfSize(name, total));
    } else {
      BatchedStart(d1, outDir, PathIn(outDir), Converter(wrap, pdfBytes));
      GroupFiles(d, d1, d2, cwd, name, wrap, pdfBytes);
    }
    var pages := CountFolderPages(d2, outDir);
    if pages.Err? {
      return d2, Some(NotAPdf(pages.error));
    }
    r, failure := AppendStat(d2, PdfPages(name, pages.value)), None;
  }

  /** The recreated output folder leaves the input folder and what is
      below it alone. */
  lemma InputKept(d: Disk, cwd: string, name: string)
    ensures var d1 := Recreated(d, OutDir(cwd, name));
      && (InDir(cwd, name) in d1.dirs <==> InDir(cwd, name) in d.dirs)
      && TxtFiles(d1, InDir(cwd, name)) == TxtFiles(d, InDir(cwd, name))
      && forall q :: q in TxtFiles(d, InDir(cwd, name)) ==> d1.files[q] == d.files[q]
  {
    var pre := cwd + "/";
    assert InDir(cwd, name) == pre + ("txtfiles_" + name);
    assert OutDir(cwd, name) == pre + ("pdfs_" + name);
    forall p | AtOrUnder(p, InDir(cwd, name)) ensures !AtOrUnder(p, OutDir(cwd, name)) {
      DivergingDisjoint(pre, "txtfiles_" + name, "pdfs_" + name, p);
    }
  }

  /** The size line is computed on the recreated disk, which agrees with
      the original one on the text files. */
  lemma SizeKept(d: Disk, d1: Disk, inDir: string, wrap: string -> seq<string>, pdfBytes: Document -> seq<byte>)
    requires TxtFiles(d1, inDir) == TxtFiles(d, inDir)
    requires forall q :: q in TxtFiles(d, inDir) ==> d1.files[q] == d.files[q]
    ensures SumOf(TxtFiles(d1, inDir), SizeAfter(d1.files, Converter(wrap, pdfBytes)))
         == SumOf(TxtFiles(d, inDir), SizeAfter(d.files, Converter(wrap, pdfBytes)))
  {
    SumOfCongruent(TxtFiles(d, inDir), SizeAfter(d1.files, Converter(wrap, pdfBytes)),
                   SizeAfter(d.files, Converter(wrap, pdfBytes)));
  }

  /** The files after the batch, stated against the disk before the
      output folder was recreated. */
  lemma GroupFiles(d: Disk, d1: Disk, d2: Disk, cwd: string, name: string,
                   wrap: string -> seq<string>, pdfBytes: Document -> seq<byte>)
    requires '/' !in name
    requires d1 == Recreated(d, OutDir(cwd, name))
    requires Batched(d1, Sources(d, cwd, name), OutDir(cwd, name), PathIn(OutDir(cwd, name)),
                     Converter(wrap, pdfBytes), d2)
    ensures FilesKept(d.files, d2.files, OutDir(cwd, name))
    ensures Outputs(d, d2.files, cwd, name, wrap, pdfBytes)
  {
    var outDir, srcs := OutDir(cwd, name), Sources(d, cwd, name);
    var path := PathIn(outDir);
    InputKept(d, cwd, name);
    assert outDir[|outDir| - 1] != '/';
    forall q | q in srcs ensures Under(path(q), outDir) {
      PdfPathInside(outDir, q);
    }
    RecreatedBatch(d, d1, d2, outDir, srcs, path, Converter(wrap, pdfBytes));
  }

  /** A batch into a freshly recreated output folder whose targets all lie
      below it: nothing outside the folder changes, and the folder holds
      what `OutputsBy` says. */
  lemma RecreatedBatch(d: Disk, d1: Disk, d2: Disk, outDir: string, srcs: set<string>,
                       path: string -> string, convert: FileData -> FileData)
    requires d1 == Recreated(d, outDir)
    requires Batched(d1, srcs, outDir, path, convert, d2)
    requires forall q :: q in srcs ==> Under(path(q), outDir)
    requires forall q :: q in srcs ==> q in d1.files && d1.files[q] == d.files[q]
    ensures FilesKept(d.files, d2.files, outDir)
    ensures OutputsBy(d, d2.files, outDir, srcs, path, convert)
  {
    forall p | !AtOrUnder(p, outDir)
      ensures (p in d2.files <==> p in d.files) && (p in d2.files ==> d2.files[p] == d.files[p])
    {
      assert p !in Targets(srcs, path);
    }
  }

  // ---------------------------------------------------------------------------
  // The folders of different groups lie apart

  /** A directory `pre + a` with `a` free of separators never lies below a
      sibling `pre + b`. */
  lemma NameNotUnder(pre: string, a: string, b: string)
    requires '/' !in a
    ensures !Under(pre + a, pre + b)
  {
    if |pre + b + "/"| <= |pre + a| {
      assert (pre + a)[|pre| + |b|] == a[|b|];
      assert (pre + b + "/")[|pre| + |b|] == '/';
    }
  }

  /** The output folders of two different groups share nothing. */
  lemma OutDirsApart(cwd: string, a: string, b: string, p: string)
    requires '/' !in a && '/' !in b && a != b
    ensures !(AtOrUnder(p, OutDir(cwd, a)) && AtOrUnder(p, OutDir(cwd, b)))
  {
    var pre, na, nb := cwd + "/", "pdfs_" + a, "pdfs_" + b;
    assert OutDir(cwd, a) == pre + na && OutDir(cwd, b) == pre + nb;
    assert na[5..] == a && nb[5..] == b;
    assert (pre + na)[|pre|..] == na && (pre + nb)[|pre|..] == nb;
    SiblingsDisjoint(pre, na, nb, p);
    NameNotUnder(pre, na, nb);
    NameNotUnder(pre, nb, na);
  }

  /** No input folder shares anything with an output folder. */
  lemma InOutApart(cwd: string, a: string, b: string, p: string)
    ensures !(AtOrUnder(p, InDir(cwd, a)) && AtOrUnder(p, OutDir(cwd, b)))
  {
    var pre := cwd + "/";
    assert InDir(cwd, a) == pre + ("txtfiles_" + a);
    assert OutDir(cwd, b) == pre + ("pdfs_" + b);
    DivergingDisjoint(pre, "txtfiles_" + a, "pdfs_" + b, p);
  }

  /** `cur` and `d` agree on `dir` and everything below it. */
  ghost predicate Agree(d: Disk, cur: Disk, dir: string) {
    forall p :: AtOrUnder(p, dir) ==>
      && (p in cur.files <==> p in d.files)
      && (p in cur.files ==> cur.files[p] == d.files[p])
      && (p in cur.dirs <==> p in d.dirs)
  }

  /** A group sees the same inputs and the same output folder on any disk
      that agrees with `d` there. */
  lemma GroupTransfer(d: Disk, cur: Disk, cwd: string, name: string,
                      wrap: string -> seq<string>, pdfBytes: Document -> seq<byte>)
    requires Agree(d, cur, InDir(cwd, name)) && Agree(d, cur, OutDir(cwd, name))
    ensures Sources(cur, cwd, name) == Sources(d, cwd, name)
    ensures SizeLine(cur, cwd, name, wrap, pdfBytes) == SizeLine(d, cwd, name, wrap, pdfBytes)
    ensures OutDir(cwd, name) in cur.dirs <==> OutDir(cwd, name) in d.dirs
    ensures RegularFileAt(cur, OutDir(cwd, name)) <==> RegularFileAt(d, OutDir(cwd, name))
    ensures Blocked(cur, cwd, name) <==> Blocked(d, cwd, name)
    ensures FilesUnder(cur, OutDir(cwd, name)) == FilesUnder(d, OutDir(cwd, name))
    ensures forall p :: p in FilesUnder(d, OutDir(cwd, name)) ==> cur.files[p] == d.files[p]
  {
    var inDir := InDir(cwd, name);
    assert TxtFiles(cur, inDir) == TxtFiles(d, inDir);
    SizeKept(d, cur, inDir, wrap, pdfBytes);
    assert AtOrUnder(OutDir(cwd, name), OutDir(cwd, name));
  }

  lemma OutputsTransfer(d: Disk, cur: Disk, files: map<string, FileData>, cwd: string, name: string,
                        wrap: string -> seq<string>, pdfBytes: Document -> seq<byte>)
    requires Agree(d, cur, InDir(cwd, name)) && Agree(d, cur, OutDir(cwd, name))
    requires Outputs(cur, files, cwd, name, wrap, pdfBytes)
    ensures Outputs(d, files, cwd, name, wrap, pdfBytes)
  {
    GroupTransfer(d, cur, cwd, name, wrap, pdfBytes);
    var srcs := Sources(d, cwd, name);
    forall q | q in srcs ensures q in cur.files && q in d.files && cur.files[q] == d.files[q] {
      assert AtOrUnder(q, InDir(cwd, name));
    }
    OutputsByTransfer(d, cur, files, OutDir(cwd, name), srcs, PathIn(OutDir(cwd, name)), Converter(wrap, pdfBytes));
  }

  /** `OutputsBy` only looks at the output folder and the sources. */
  lemma OutputsByTransfer(d: Disk, cur: Disk, files: map<string, FileData>, outDir: string,
                          srcs: set<string>, path: string -> string, convert: FileData -> FileData)
    requires OutputsBy(cur, files, outDir, srcs, path, convert)
    requires outDir in cur.dirs <==> outDir in d.dirs
    requires forall p :: Under(p, outDir) ==>
               (p in cur.files <==> p in d.files) && (p in cur.files ==> cur.files[p] == d.files[p])
    requires forall q :: q in srcs ==> q in cur.files && q in d.files && cur.files[q] == d.files[q]
    ensures OutputsBy(d, files, outDir, srcs, path, convert)
  {
    forall p | Under(p, outDir) && p in Targets(srcs, path)
      ensures exists q :: q in srcs && q in d.files && p == path(q) && files[p] == convert(d.files[q])
    {
      var q :| q in srcs && q in cur.files && p == path(q) && files[p] == convert(cur.files[q]);
    }
  }

  /** A later group leaves an earlier group's output alone. */
  lemma OutputsFrame(d: Disk, files: map<string, FileData>, files': map<string, FileData>,
                     cwd: string, a: string, b: string,
                     wrap: string -> seq<string>, pdfBytes: Document -> seq<byte>)
    requires '/' !in a && '/' !in b && a != b
    requires Outputs(d, files, cwd, a, wrap, pdfBytes)
    requires FilesKept(files, files', OutDir(cwd, b))
    ensures Outputs(d, files', cwd, a, wrap, pdfBytes)
  {
    forall p | Under(p, OutDir(cwd, a)) ensures !AtOrUnder(p, OutDir(cwd, b)) {
      OutDirsApart(cwd, a, b, p);
    }
  }

  // ---------------------------------------------------------------------------
  // `main`

  /** The two lines a group adds to the statistics file: the PDF size (only
      when its input folder is a directory) and the page count of its output
      folder on the final disk. */
  ghost function GroupLines(d: Disk, final: Disk, cwd: string, name: string,
                            wrap: string -> seq<string>, pdfBytes: Document -> seq<byte>): seq<StatLine> {
    SizeLine(d, cwd, name, wrap, pdfBytes)
      + [PdfPages(name, SumOf(FilesUnder(final, OutDir(cwd, name)), PagesAt(final.files)))]
  }

  /** The lines of all the groups, in dict order. */
  ghost function AllLines(d: Disk, final: Disk, cwd: string, groups: seq<Utils.Group>,
                          wrap: string -> seq<string>, pdfBytes: Document -> seq<byte>): seq<StatLine>
    decreases |groups|
  {
    if groups == [] then []
    else AllLines(d, final, cwd, groups[..|groups| - 1], wrap, pdfBytes)
           + GroupLines(d, final, cwd, groups[|groups| - 1].name, wrap, pdfBytes)
  }

  /** `p` lies outside the output folder of every group in `groups`. */
  ghost predicate OutsideAll(p: string, cwd: string, groups: seq<Utils.Group>) {
    forall j :: 0 <= j < |groups| ==> !AtOrUnder(p, OutDir(cwd, groups[j].name))
  }

  /** Page counts of earlier groups are not changed by a later group. */
  lemma {:induction false} AllLinesFrame(d: Disk, cur: Disk, cur': Disk, cwd: string,
                                         groups: seq<Utils.Group>, name: string,
                                         wrap: string -> seq<string>, pdfBytes: Document -> seq<byte>)
    requires '/' !in name
    requires forall j :: 0 <= j < |groups| ==> '/' !in groups[j].name && groups[j].name != name
    requires FilesKept(cur.files, cur'.files, OutDir(cwd, name))
    ensures AllLines(d, cur, cwd, groups, wrap, pdfBytes) == AllLines(d, cur', cwd, groups, wrap, pdfBytes)
    decreases |groups|
  {
    if groups != [] {
      var last := groups[|groups| - 1].name;
      AllLinesFrame(d, cur, cur', cwd, groups[..|groups| - 1], name, wrap, pdfBytes);
      var out := OutDir(cwd, last);
      forall p | Under(p, out) ensures !AtOrUnder(p, OutDir(cwd, name)) {
        OutDirsApart(cwd, last, name, p);
      }
      assert FilesUnder(cur, out) == FilesUnder(cur', out);
      SumOfCongruent(FilesUnder(cur, out), PagesAt(cur.files), PagesAt(cur'.files));
    }
  }

  /** Each group of `gs` has its PDFs in its output folder. */
  ghost predicate AllOutputs(d: Disk, files: map<string, FileData>, cwd: string, gs: seq<Utils.Group>,
                             wrap: string -> seq<string>, pdfBytes: Document -> seq<byte>) {
    forall j :: 0 <= j < |gs| ==> Outputs(d, files, cwd, gs[j].name, wrap, pdfBytes)
  }

  /** Outside the output folders of `gs`, no file and no directory changed. */
  ghost predicate KeptOutside(d: Disk, cur: Disk, cwd: string, gs: seq<Utils.Group>) {
    && (forall p :: OutsideAll(p, cwd, gs) ==>
          (p in cur.files <==> p in d.files) && (p in cur.files ==> cur.files[p] == d.files[p]))
    && (forall q :: OutsideAll(q, cwd, gs) ==> (q in cur.dirs <==> q in d.dirs))
  }

  /** The output folder of each group of `gs` is a directory, except where
      a regular file stood in `d` and `mkdir` failed. */
  ghost predicate OutDirsMade(d: Disk, cur: Disk, cwd: string, gs: seq<Utils.Group>) {
    forall j :: 0 <= j < |gs| ==> (OutDir(cwd, gs[j].name) in cur.dirs <==> !RegularFileAt(d, OutDir(cwd, gs[j].name)))
  }

  /** What `main` has done once the groups `gs` are through: each group's
      output folder holds its PDFs and is a directory (unless a regular
      file stands there), nothing outside the output folders changed, and
      one or two statistics lines were appended per group, in order. */
  ghost predicate MainDone(d: Disk, cur: Disk, cwd: string, gs: seq<Utils.Group>,
                           wrap: string -> seq<string>, pdfBytes: Document -> seq<byte>) {
    && AllOutputs(d, cur.files, cwd, gs, wrap, pdfBytes)
    && KeptOutside(d, cur, cwd, gs)
    && OutDirsMade(d, cur, cwd, gs)
    && cur.stats == d.stats + AllLines(d, cur, cwd, gs, wrap, pdfBytes)
  }

  /** What `main` has left on disk when the page count of the last group
      of `gs` raises: what `MainDone` says for all of `gs`, except that the
      last group has its size line but no page line. */
  ghost predicate PagesFailed(d: Disk, cur: Disk, cwd: string, gs: seq<Utils.Group>,
                              wrap: string -> seq<string>, pdfBytes: Document -> seq<byte>) {
    && gs != []
    && AllOutputs(d, cur.files, cwd, gs, wrap, pdfBytes)
    && KeptOutside(d, cur, cwd, gs)
    && OutDirsMade(d, cur, cwd, gs)
    && cur.stats == d.stats + AllLines(d, cur, cwd, gs[..|gs| - 1], wrap, pdfBytes)
                    + SizeLine(d, cwd, gs[|gs| - 1].name, wrap, pdfBytes)
  }

  /** `main(file_struct)`: the groups are handled one after the other. It
      returns the disk as `main` leaves it and the exception that ends it,
      if any. A group raises when a regular file stands at its output
      folder and it has text files to convert; the groups before it are
      then done and nothing of it is. A group also raises when its page
      count meets a file that is not a PDF; its PDFs and size line are
      then written. On a well-formed disk only the former can happen. */
  method ConvertAllGroups(d: Disk, cwd: string, groups: seq<Utils.Group>,
                          wrap: string -> seq<string>, pdfBytes: Document -> seq<byte>)
    returns (r: Disk, failure: Option<PdfError>)
    requires forall j :: 0 <= j < |groups| ==> '/' !in groups[j].name
    requires Utils.DistinctKeys(groups)
    requires ShellWord(cwd) && forall j :: 0 <= j < |groups| ==> ShellWord(groups[j].name)
    ensures failure.None? ==> MainDone(d, r, cwd, groups, wrap, pdfBytes)
    ensures failure.None? ==> forall j :: 0 <= j < |groups| ==> !Blocked(d, cwd, groups[j].name)
    ensures failure.Some? && failure.value.FileExists? ==>
              exists j :: 0 <= j < |groups| && failure.value.path == OutDir(cwd, groups[j].name)
                          && Blocked(d, cwd, groups[j].name)
                          && MainDone(d, r, cwd, groups[..j], wrap, pdfBytes)
    ensures failure.Some? && failure.value.NotAPdf? ==>
              exists j :: 0 <= j < |groups| && OutDir(cwd, groups[j].name) !in d.dirs
                          && failure.value.path in FilesUnder(d, OutDir(cwd, groups[j].name))
                          && !d.files[failure.value.path].Pdf?
                          && PagesFailed(d, r, cwd, groups[..j + 1], wrap, pdfBytes)
    ensures WellFormed(d) && (forall j :: 0 <= j < |groups| ==> !Blocked(d, cwd, groups[j].name)) ==>
              failure.None?
  {
    var cur := d;
    MainStart(d, cwd, wrap, pdfBytes);
    assert groups[..0] == [];
    for i := 0 to |groups|
      invariant MainDone(d, cur, cwd, groups[..i], wrap, pdfBytes)
      invariant forall j :: 0 <= j < i ==> !Blocked(d, cwd, groups[j].name)
    {
      var next, stop := ConvertGroup(cur, cwd, groups[i].name, wrap, pdfBytes);
      AgreeBeforeGroup(d, cur, cwd, groups, i);
      GroupTransfer(d, cur, cwd, groups[i].name, wrap, pdfBytes);
      if stop.Some? {
        NoFilesBelowNonDir(d, OutDir(cwd, groups[i].name));
        if stop.value.NotAPdf? {
          StoppedAtPages(d, cur, next, cwd, groups, i, wrap, pdfBytes);
        }
        return if stop.value.FileExists? then cur else next, stop;
      }
      MainStep(d, cur, next, cwd, groups, i, wrap, pdfBytes);
      cur := next;
    }
    assert groups[..|groups|] == groups;
    return cur, None;
  }

  /** Group `i` stopped at its page count: the groups before it are done,
      and its PDFs and size line are written. */
  lemma StoppedAtPages(d: Disk, cur: Disk, cur': Disk, cwd: string, groups: seq<Utils.Group>, i: nat,
                  wrap: string -> seq<string>, pdfBytes: Document -> seq<byte>)
    requires i < |groups|
    requires forall j :: 0 <= j < |groups| ==> '/' !in groups[j].name
    requires Utils.DistinctKeys(groups)
    requires MainDone(d, cur, cwd, groups[..i], wrap, pdfBytes)
    requires Agree(d, cur, InDir(cwd, groups[i].name)) && Agree(d, cur, OutDir(cwd, groups[i].name))
    requires FilesKept(cur.files, cur'.files, OutDir(cwd, groups[i].name))
    requires Outputs(cur, cur'.files, cwd, groups[i].name, wrap, pdfBytes)
    requires cur'.dirs == Recreated(cur, OutDir(cwd, groups[i].name)).dirs
    requires cur'.stats == cur.stats + SizeLine(cur, cwd, groups[i].name, wrap, pdfBytes)
    ensures PagesFailed(d, cur', cwd, groups[..i + 1], wrap, pdfBytes)
  {
    MainStepOutputs(d, cur, cur', cwd, groups, i, wrap, pdfBytes);
    MainStepKept(d, cur, cur', cwd, groups, i);
    StoppedStats(d, cur, cur', cwd, groups, i, wrap, pdfBytes);
    assert groups[..i + 1][..i] == groups[..i] && groups[..i + 1][i] == groups[i];
  }

  /** The statistics of `StoppedAtPages`: the lines of the groups before
      `i`, then the size line of group `i`. */
  lemma StoppedStats(d: Disk, cur: Disk, cur': Disk, cwd: string, groups: seq<Utils.Group>, i: nat,
                     wrap: string -> seq<string>, pdfBytes: Document -> seq<byte>)
    requires i < |groups|
    requires forall j :: 0 <= j < |groups| ==> '/' !in groups[j].name
    requires Utils.DistinctKeys(groups)
    requires cur.stats == d.stats + AllLines(d, cur, cwd, groups[..i], wrap, pdfBytes)
    requires Agree(d, cur, InDir(cwd, groups[i].name)) && Agree(d, cur, OutDir(cwd, groups[i].name))
    requires FilesKept(cur.files, cur'.files, OutDir(cwd, groups[i].name))
    requires cur'.stats == cur.stats + SizeLine(cur, cwd, groups[i].name, wrap, pdfBytes)
    ensures cur'.stats == d.stats + AllLines(d, cur', cwd, groups[..i], wrap, pdfBytes)
                          + SizeLine(d, cwd, groups[i].name, wrap, pdfBytes)
  {
    var gs, name := groups[..i], groups[i].name;
    GroupTransfer(d, cur, cwd, name, wrap, pdfBytes);
    forall j | 0 <= j < |gs| ensures '/' !in gs[j].name && gs[j].name != name {
      assert gs[j] == groups[j];
    }
    AllLinesFrame(d, cur, cur', cwd, gs, name, wrap, pdfBytes);
  }

  lemma MainStart(d: Disk, cwd: string, wrap: string -> seq<string>, pdfBytes: Document -> seq<byte>)
    ensures MainDone(d, d, cwd, [], wrap, pdfBytes)
  {
  }

  /** Before group `i` runs, the disk agrees with the original one on its
      input and output folders. */
  lemma AgreeBeforeGroup(d: Disk, cur: Disk, cwd: string, groups: seq<Utils.Group>, i: nat)
    requires i < |groups|
    requires forall j :: 0 <= j < |groups| ==> '/' !in groups[j].name
    requires Utils.DistinctKeys(groups)
    requires KeptOutside(d, cur, cwd, groups[..i])
    ensures Agree(d, cur, InDir(cwd, groups[i].name)) && Agree(d, cur, OutDir(cwd, groups[i].name))
  {
    var gs, name := groups[..i], groups[i].name;
    forall p | AtOrUnder(p, InDir(cwd, name)) || AtOrUnder(p, OutDir(cwd, name))
      ensures OutsideAll(p, cwd, gs)
    {
      forall j | 0 <= j < |gs| ensures !AtOrUnder(p, OutDir(cwd, gs[j].name)) {
        InOutApart(cwd, name, gs[j].name, p);
        OutDirsApart(cwd, name, gs[j].name, p);
      }
    }
  }

  /** Group `i` done keeps `MainDone`. */
  lemma MainStep(d: Disk, cur: Disk, cur': Disk, cwd: string, groups: seq<Utils.Group>, i: nat,
                 wrap: string -> seq<string>, pdfBytes: Document -> seq<byte>)
    requires i < |groups|
    requires forall j :: 0 <= j < |groups| ==> '/' !in groups[j].name
    requires Utils.DistinctKeys(groups)
    requires MainDone(d, cur, cwd, groups[..i], wrap, pdfBytes)
    requires Agree(d, cur, InDir(cwd, groups[i].name)) && Agree(d, cur, OutDir(cwd, groups[i].name))
    requires FilesKept(cur.files, cur'.files, OutDir(cwd, groups[i].name))
    requires Outputs(cur, cur'.files, cwd, groups[i].name, wrap, pdfBytes)
    requires cur'.dirs == Recreated(cur, OutDir(cwd, groups[i].name)).dirs
    requires cur'.stats == cur.stats + SizeLine(cur, cwd, groups[i].name, wrap, pdfBytes)
               + [PdfPages(groups[i].name, SumOf(FilesUnder(cur', OutDir(cwd, groups[i].name)),
                                                 PagesAt(cur'.files)))]
    ensures MainDone(d, cur', cwd, groups[..i + 1], wrap, pdfBytes)
  {
    MainStepOutputs(d, cur, cur', cwd, groups, i, wrap, pdfBytes);
    MainStepStats(d, cur, cur', cwd, groups, i, wrap, pdfBytes);
    MainStepKept(d, cur, cur', cwd, groups, i);
  }

  lemma MainStepOutputs(d: Disk, cur: Disk, cur': Disk, cwd: string, groups: seq<Utils.Group>, i: nat,
                        wrap: string -> seq<string>, pdfBytes: Document -> seq<byte>)
    requires i < |groups|
    requires forall j :: 0 <= j < |groups| ==> '/' !in groups[j].name
    requires Utils.DistinctKeys(groups)
    requires AllOutputs(d, cur.files, cwd, groups[..i], wrap, pdfBytes)
    requires Agree(d, cur, InDir(cwd, groups[i].name)) && Agree(d, cur, OutDir(cwd, groups[i].name))
    requires FilesKept(cur.files, cur'.files, OutDir(cwd, groups[i].name))
    requires Outputs(cur, cur'.files, cwd, groups[i].name, wrap, pdfBytes)
    ensures AllOutputs(d, cur'.files, cwd, groups[..i + 1], wrap, pdfBytes)
  {
    var gs, gs', name := groups[..i], groups[..i + 1], groups[i].name;
    forall j | 0 <= j < |gs'| ensures Outputs(d, cur'.files, cwd, gs'[j].name, wrap, pdfBytes) {
      assert gs'[j] == groups[j];
      if j < i {
        assert gs[j] == groups[j];
        EarlierOutputs(d, cur.files, cur'.files, cwd, gs, j, name, wrap, pdfBytes);
      } else {
        OutputsTransfer(d, cur, cur'.files, cwd, name, wrap, pdfBytes);
      }
    }
  }

  lemma EarlierOutputs(d: Disk, files: map<string, FileData>, files': map<string, FileData>,
                       cwd: string, gs: seq<Utils.Group>, j: nat, name: string,
                       wrap: string -> seq<string>, pdfBytes: Document -> seq<byte>)
    requires j < |gs| && '/' !in gs[j].name && '/' !in name && gs[j].name != name
    requires AllOutputs(d, files, cwd, gs, wrap, pdfBytes)
    requires FilesKept(files, files', OutDir(cwd, name))
    ensures Outputs(d, files', cwd, gs[j].name, wrap, pdfBytes)
  {
    OutputsFrame(d, files, files', cwd, gs[j].name, name, wrap, pdfBytes);
  }

  lemma MainStepStats(d: Disk, cur: Disk, cur': Disk, cwd: string, groups: seq<Utils.Group>, i: nat,
                      wrap: string -> seq<string>, pdfBytes: Document -> seq<byte>)
    requires i < |groups|
    requires forall j :: 0 <= j < |groups| ==> '/' !in groups[j].name
    requires Utils.DistinctKeys(groups)
    requires cur.stats == d.stats + AllLines(d, cur, cwd, groups[..i], wrap, pdfBytes)
    requires Agree(d, cur, InDir(cwd, groups[i].name)) && Agree(d, cur, OutDir(cwd, groups[i].name))
    requires FilesKept(cur.files, cur'.files, OutDir(cwd, groups[i].name))
    requires cur'.stats == cur.stats + SizeLine(cur, cwd, groups[i].name, wrap, pdfBytes)
               + [PdfPages(groups[i].name, SumOf(FilesUnder(cur', OutDir(cwd, groups[i].name)),
                                                 PagesAt(cur'.files)))]
    ensures cur'.stats == d.stats + AllLines(d, cur', cwd, groups[..i + 1], wrap, pdfBytes)
  {
    var gs, gs', name := groups[..i], groups[..i + 1], groups[i].name;
    assert gs'[..i] == gs && gs'[i] == groups[i];
    GroupTransfer(d, cur, cwd, name, wrap, pdfBytes);
    forall j | 0 <= j < |gs| ensures '/' !in gs[j].name && gs[j].name != name {
      assert gs[j] == groups[j];
    }
    AllLinesFrame(d, cur, cur', cwd, gs, name, wrap, pdfBytes);
    assert AllLines(d, cur', cwd, gs', wrap, pdfBytes)
        == AllLines(d, cur', cwd, gs, wrap, pdfBytes) + GroupLines(d, cur', cwd, name, wrap, pdfBytes);
  }

  lemma MainStepKept(d: Disk, cur: Disk, cur': Disk, cwd: string, groups: seq<Utils.Group>, i: nat)
    requires i < |groups|
    requires forall j :: 0 <= j < |groups| ==> '/' !in groups[j].name
    requires Utils.DistinctKeys(groups)
    requires KeptOutside(d, cur, cwd, groups[..i]) && OutDirsMade(d, cur, cwd, groups[..i])
    requires Agree(d, cur, OutDir(cwd, groups[i].name))
    requires FilesKept(cur.files, cur'.files, OutDir(cwd, groups[i].name))
    requires cur'.dirs == Recreated(cur, OutDir(cwd, groups[i].name)).dirs
    ensures KeptOutside(d, cur', cwd, groups[..i + 1]) && OutDirsMade(d, cur', cwd, groups[..i + 1])
  {
    var gs, gs', name := groups[..i], groups[..i + 1], groups[i].name;
    forall p | OutsideAll(p, cwd, gs') ensures OutsideAll(p, cwd, gs) && !AtOrUnder(p, OutDir(cwd, name)) {
      assert gs'[i] == groups[i];
      forall j | 0 <= j < |gs| ensures !AtOrUnder(p, OutDir(cwd, gs[j].name)) {
        assert gs'[j] == gs[j];
      }
    }
    OutDirsStep(d, cur, cur', cwd, groups, i);
  }

  lemma OutDirsStep(d: Disk, cur: Disk, cur': Disk, cwd: string, groups: seq<Utils.Group>, i: nat)
    requires i < |groups|
    requires forall j :: 0 <= j < |groups| ==> '/' !in groups[j].name
    requires Utils.DistinctKeys(groups)
    requires OutDirsMade(d, cur, cwd, groups[..i])
    requires Agree(d, cur, OutDir(cwd, groups[i].name))
    requires cur'.dirs == Recreated(cur, OutDir(cwd, groups[i].name)).dirs
    ensures OutDirsMade(d, cur', cwd, groups[..i + 1])
  {
    var gs, gs', out := groups[..i], groups[..i + 1], OutDir(cwd, groups[i].name);
    assert AtOrUnder(out, out);
    assert out in cur'.dirs <==> !RegularFileAt(d, out);
    forall j | 0 <= j < |gs'|
      ensures OutDir(cwd, gs'[j].name) in cur'.dirs <==> !RegularFileAt(d, OutDir(cwd, gs'[j].name))
    {
      if j < i {
        assert gs'[j] == gs[j] == groups[j];
        var o := OutDir(cwd, groups[j].name);
        OutDirsApart(cwd, groups[j].name, groups[i].name, o);
        assert o in cur'.dirs <==> o in cur.dirs;
      } else {
        assert gs'[j] == groups[i];
      }
    }
  }
}
