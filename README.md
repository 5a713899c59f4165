# Dataminer, modelled in Dafny

Dataminer turns a folder of files into text and then into PDF documents,
and it records how large each result is. The pipeline has four stages.

- `organize_files_by_top_directories` groups the files by the top-level
  sub-directory they sit under.
- `bigman.main` reads every file of a group in chunks of 10000 bytes. For
  each byte it writes the base64 text of the byte as a 5-byte little-endian
  integer. Each chunk goes to a text file `<stem>_<i>.txt`, which is moved
  into `txtfiles_<group>`. One size line per group is appended to
  `statfile.txt`.
- `create_pdf_file.main` recreates `pdfs_<group>` and converts every
  `.txt` file of `txtfiles_<group>` into a PDF with a fixed layout. It then
  appends the size of the PDFs and their page count.
- A Qt window (`app/main.py`) lets the user pick the folder. It offers one
  check box per file type found and starts the pipeline in a worker thread.
  Two progress counters (`app/progress.py`) are kept between 0 and 100.

How the model is built:

- The file system is a value `Disk.Disk` holding directories, files by path
  and the lines of the statistics file. `mkdir`, `rm -rf`, `mv`, `open` and
  `write` are functions on it.
- Loops that change things are methods. Each is proved against a function
  that states what the loop computes: `ReadWavInChunks`, `ConvertFile`,
  `ConvertFiles`, `RunTextStage`, `BatchConvertTxtToPdf`, `SumPages`,
  `ConvertAllGroups`, `OrganizeFilesByTopDirectories`, `ScanFileTypes` and
  `BuildCheckboxes`.
- The reportlab canvas (`Canvas.PdfCanvas`), the progress counters
  (`Progress.Counters`) and the main window (`AppMain.MainWindow`) are
  classes whose methods update their fields.
- The layout of the PDF pages is a pure function `Layout.LayOut`. The
  lemmas about it say that every page but the last holds exactly 50 lines
  and that the pages give back the lines in order.
- Base64 (section 4 of RFC 4648) and `int.to_bytes` are modelled together
  with their inverses, so each chunk's text provably decodes to the chunk.
- Things the program does not decide are parameters:
  - `wrap`: `textwrap.wrap(..., width=70)`.
  - `pdfBytes`: the byte stream reportlab writes.
  - `visible`: the size `os.path.getsize` sees for a file still open for
    writing.
  - `state`: the listing of the chosen root that the grouping walks. It is
    a separate parameter from the disk the stages read (see "## Left out").

Where the code and its documentation differ, the model follows the code:

- A missing or non-directory root makes `os.listdir` raise (utils.py:14).
  The model returns `Err` there, not an empty mapping.
- `bigman.main` tests and removes `textfiles_<group>` but creates and
  fills `txtfiles_<group>` (bigman.py:22-29). Both names are modelled as
  written.
- The branch `if not out_dir` in create_pdf_file.py:42-44 can never be
  taken, because `out_dir` is never empty. It is not modelled.

## Model

| member | source | states |
|---|---|---|
| Utils.OrganizeFilesByTopDirectories | utils.py:4-26 | An empty root gives an empty mapping. A missing or non-directory root gives the error `os.listdir` raises. Otherwise the result maps each top-level sub-directory, in listing order, to the files below it in `os.walk` order. |
| Utils.Grouping | utils.py:14-24 | The dict the loop over the root entries builds holds each key once. |
| Utils.OsWalk | utils.py:21 | The walk is top-down: its first step is the top folder with its own file names. |
| Utils.CollectWalk | utils.py:21-24 | The path list built by the walk loop is each step's file names joined to that step's directory, step after step. |
| Utils.FileNames | utils.py:21 | A name is among the file names of a directory listing exactly when some entry of the listing is a file with that name. |
| Utils.Joined | utils.py:22-24 | Each file name, in order, is joined to its directory. |
| Utils.DictSetLookup | utils.py:18 | After `file_structure[k] = v`, `k` maps to `v` and every other key keeps its value. |
| Utils.DictSetKeys | utils.py:18 | Assigning a key adds it to the keys and keeps the keys distinct. |
| Utils.SubtreeFilesCount | utils.py:21-24 | A sub-directory's list holds exactly as many paths as there are files anywhere below it. |
| Utils.SubtreeFilesComplete | utils.py:21-24 | Every file below a sub-directory appears in its list, under the path made of its directory names. |
| Utils.SubtreeFilesSound | utils.py:21-24 | Every path in a sub-directory's list is the path of a file below it. |
| Utils.SubtreeFilesBelow | utils.py:21-24 | Every path in a group's list starts with the group's directory and a slash. |
| Utils.GroupingShape | utils.py:14-18 | The keys are exactly the sub-directory names of the root, each once. Each group's list comes from its own sub-directory. |
| Utils.GroupingLookup | utils.py:17-24 | Every sub-directory of the root is a key, and one without files maps to an empty list. |
| Utils.GroupPaths | utils.py:15-24 | A group's paths all lie under `<root>/<group>/`, and a group name is a single path component. |
| Utils.GroupsDisjoint | utils.py:17-24 | No path is listed under two different groups. |
| Utils.RootFilesUngrouped | utils.py:17 | A file directly in the root is in no group. |
| Bigman.ReadWavInChunks | bigman.py:66-84 | The chunks yielded are the ones `ReadChunks` describes for the file's contents, or none when the file cannot be opened. |
| Bigman.ReadChunksSound | bigman.py:78-80 | The chunks concatenate back to the file. Each chunk is `chunk_size` long except the last, which is non-empty. A missing file yields nothing. |
| Bigman.EncodeByteShape | bigman.py:50-51 | The text for one byte is two base64 characters determined by the byte, followed by "AAAAA=". |
| Bigman.EncodeByteAscii | bigman.py:48-52 | The text for a byte is ASCII and contains no line break, so writing it as UTF-8 gives one byte per character. |
| Bigman.ByteRoundTrip | bigman.py:50-51 | Decoding the base64 of `b.to_bytes(5, 'little')` and reading it back as an integer gives `b` again. |
| Bigman.EncodeChunk | bigman.py:49-52 | The text written for a chunk is the encodings of its bytes, in order, 8 characters per byte. |
| Bigman.ChunkTextAt | bigman.py:49-52 | Characters 8k to 8k+8 of a chunk's text are the encoding of its k-th byte. |
| Bigman.ChunkRoundTrip | bigman.py:49-52 | A chunk's text decodes back to exactly that chunk. |
| Bigman.ChunkFileRoundTrip | bigman.py:48-52 | The text file of a chunk has 8 bytes per chunk byte. Read back as text it is one single line, and it decodes to the chunk. |
| Bigman.ChunkNameShape | bigman.py:45-46 | The chunk file `<stem>_<i>.txt` ends in ".txt", and its base name is the source's base name without extension, followed by `_<i>`. |
| Bigman.ChunkNamesDistinct | bigman.py:46-55 | Different chunk indices give different chunk file names and different targets in the destination folder. |
| Bigman.ChunkTargetIsTxt | bigman.py:55 | Every moved chunk lands directly in the destination folder and counts as a ".txt" file for the PDF stage. |
| Bigman.ConvertFile | bigman.py:43-56 | The loop over one file's chunks leaves every chunk's text file moved into the destination folder. The size it adds is the sum of the sizes seen for the chunk files. |
| Bigman.ChunksLanded | bigman.py:43-56 | When the destination is a directory and the source lies outside it, after one file is converted its i-th chunk text is at `<dst>/<stem>_<i>.txt`. No chunk file is left beside the source. Every other file is unchanged. |
| Bigman.SeenSizesExact | bigman.py:53-54 | When the size seen is the size written, a file adds 8 times its byte count to the total, and a missing file adds 0. |
| Bigman.PreparedKeepsOutput | bigman.py:22-29 | The folder set-up removes `textfiles_<group>` when it is a directory. Afterwards `txtfiles_<group>` is a directory exactly when no regular file stood at that path, because `mkdir` fails on a file. Nothing at or below `txtfiles_<group>` changes. |
| Bigman.Prepared | bigman.py:22-29 | The folder set-up only removes files, never changes the contents of one, and writes no statistics line. |
| Bigman.EncodeByte | bigman.py:50-51 | The text written for one byte is 8 characters long. |
| Bigman.ChunkFileName | bigman.py:45-46 | The chunk file name starts with the source path without its extension and ends in ".txt". |
| Bigman.ConvertGroupText | bigman.py:20-61 | One group's turn sets up the folders, converts each file in list order, and appends one size line. |
| Bigman.ConvertFiles | bigman.py:41-56 | The loop over a group's paths gives the disk and the total that `TextFiles` describes. |
| Bigman.RunTextStage | bigman.py:20-61 | The loop over the groups applies one group's turn after the other. |
| Bigman.TextStageStats | bigman.py:58-61 | The text stage appends exactly one size line per group, in group order, each naming its group. |
| Bigman.TextStageWellFormed | bigman.py:20-56 | On a disk where every file's parent folders exist, the text stage keeps that property, and the working directory stays a directory. |
| Bigman.BigmanMain | bigman.py:10-63 | A missing or non-directory root gives the listing error and leaves the disk as it was. Success means the PDF stage finished on the disk the text stage left, and no group met a regular file at its output folder. An `OutputIsFile` failure names the output folder of such a group that had text files to convert. Such a failure leaves the disk the text stage made, with the groups before the blocked one done. A page-count failure names a non-PDF file in an output folder that was not a directory. It leaves the groups before that one done, and that group's PDFs and size line written. On a well-formed disk it succeeds exactly when the root can be listed or is empty and no group has a regular file at its output folder together with text files to convert. |
| Bigman.GroupNames | utils.py:14-18 | The group names `main` iterates over are single path components, each once. |
| CreatePdfFile.ReadText | converter/create_pdf_file.py:121 | The text read has one character per byte of the file, with the same code. |
| CreatePdfFile.Newlines | converter/create_pdf_file.py:121 | Universal newlines turn "\r\n" and a lone '\r' into '\n', so no '\r' is left, and the text never grows. |
| CreatePdfFile.NewlinesKeep | converter/create_pdf_file.py:121 | Universal newlines leave a text without carriage returns unchanged. |
| CreatePdfFile.Lines | converter/create_pdf_file.py:122 | The lines concatenate back to the text. None is empty. Only the last may lack a final '\n', and no line has a '\n' before its end. |
| CreatePdfFile.OneLine | converter/create_pdf_file.py:122 | A non-empty text without '\n' is read as exactly one line. |
| CreatePdfFile.Slices | converter/create_pdf_file.py:123-124 | The slices of a line concatenate back to it. Each is non-empty and at most 10000 characters, and all but the last are exactly 10000. |
| CreatePdfFile.PdfPathInside | converter/create_pdf_file.py:103-104 | The PDF path ends in ".pdf" and lies directly in the output folder. |
| CreatePdfFile.PdfName | converter/create_pdf_file.py:103-104 | The PDF file name is one path component ending in ".pdf". |
| CreatePdfFile.ConvertTxtToPdf | converter/create_pdf_file.py:88-146 | It fails with `FileExistsError`, naming the output folder and changing nothing, exactly when a regular file stands at the output folder. Otherwise the output folder exists afterwards. The returned path is `<output>/<stem>.pdf`, and it holds the document laid out from the stripped, wrapped slices of the text's lines. Nothing else changes. |
| CreatePdfFile.DrawText | converter/create_pdf_file.py:105-145 | The canvas loop over the file's lines saves exactly the layout of the stripped, wrapped slices of those lines, in order. |
| CreatePdfFile.WrapSlices | converter/create_pdf_file.py:126-128 | `wrapped_data` is the wrapping of each slice, concatenated in order. |
| CreatePdfFile.DrawPieces | converter/create_pdf_file.py:131-142 | After the inner loop the canvas holds the layout of every piece drawn so far, stripped, and the cursor is where that layout leaves it. |
| CreatePdfFile.DrawLine | converter/create_pdf_file.py:134-142 | Drawing one more line, with a page break when the cursor is below the margin, keeps the canvas equal to the layout of the lines drawn. |
| CreatePdfFile.PdfIsNotTxt | converter/create_pdf_file.py:159 | A converted PDF never counts as a ".txt" file. |
| CreatePdfFile.IsTxt | converter/create_pdf_file.py:159 | A file whose base name ends in ".txt" counts as a text file to convert (the test lower-cases the name first, so other cases count too). |
| CreatePdfFile.BatchedStep | converter/create_pdf_file.py:159-161 | Converting one more text file keeps the batch invariant. Its PDF is added and every other file is kept. |
| CreatePdfFile.BatchedFolder | converter/create_pdf_file.py:159-161 | Until the first conversion, a regular file at the output folder is still there. After a conversion the output folder is a directory. |
| CreatePdfFile.BatchConvertTxtToPdf | converter/create_pdf_file.py:148-162 | It fails with `FileExistsError` exactly when a regular file stands at the output folder and there is a text file to convert. Otherwise every file below the input folder whose lower-cased name ends in ".txt" is converted to its PDF path in the output folder. No other file changes. The total is the sum of the sizes of the PDFs written. |
| CreatePdfFile.ConvertOne | converter/create_pdf_file.py:159-161 | Converting one more text file of the walk fails exactly when a regular file stands at the output folder. Otherwise it keeps the batch invariant and adds its PDF's size to the total. |
| CreatePdfFile.CountPages | converter/create_pdf_file.py:84-86 | A PDF the converter wrote gives its page count, and any other file makes the reader fail. Only converter-written PDFs are readable in the model. |
| CreatePdfFile.CountFolderPages | converter/create_pdf_file.py:46-53 | Success holds exactly when every file below the folder is a PDF, and the count is then the sum of their pages. A failure names a non-PDF file below the folder. |
| CreatePdfFile.SumPages | converter/create_pdf_file.py:51-53 | The summing loop gives the same verdict over any set of files: the page total, or a file that is not a PDF. |
| CreatePdfFile.GroupDirsShellWords | converter/create_pdf_file.py:20-30 | The input and output folder names of a group can be pasted unquoted into a shell command. |
| CreatePdfFile.Recreated | converter/create_pdf_file.py:24-30 | After the set-up the output folder is a directory, unless a regular file stands at that path, where `mkdir` fails. When it was a directory before, everything below it is gone. Everything else stays. |
| CreatePdfFile.ConvertGroup | converter/create_pdf_file.py:17-56 | One group's turn changes files only at or below its output folder, fills that folder with the group's PDFs, and appends the size line (when the input folder exists) and the page line. It fails with `FileExistsError` exactly when a regular file stands at the output folder and the group has text files to convert; the disk is then unchanged. Otherwise it fails only on a non-PDF file left below an output folder that was not a directory; the PDFs and the size line are then already written, but no page line. |
| CreatePdfFile.OutDirsApart | converter/create_pdf_file.py:21 | The output folders of two different groups share no path. |
| CreatePdfFile.InOutApart | converter/create_pdf_file.py:20-21 | The input folder of one group and the output folder of any group share no path. |
| CreatePdfFile.AllLinesFrame | converter/create_pdf_file.py:51-56 | A later group does not change the page counts recorded for earlier groups. |
| CreatePdfFile.ConvertAllGroups | converter/create_pdf_file.py:9-56 | On success no group met a regular file at its output folder with text files to convert. Every output folder holds its group's PDFs and is a directory unless a regular file stands there. Nothing outside the output folders changed, and one or two lines per group were appended in order. A failure names either such a blocked output folder or a non-PDF file below an output folder that was not a directory. It returns the disk as left at that point. On a blocked group, the groups before it are done and nothing of it is. On a non-PDF file, the groups before it are done and its PDFs and size line are written (`PagesFailed`). On a well-formed disk it succeeds exactly when no group is blocked. |
| CreatePdfFile.StoppedAtPages | converter/create_pdf_file.py:32-53 | When a group's page count raises, the groups before it are done and that group's PDFs and size line are on disk, as `PagesFailed` describes. |
| CreatePdfFile.StoppedStats | converter/create_pdf_file.py:32-56 | When a group's page count raises, the statistics hold the earlier groups' lines followed by this group's size line alone. |
| CreatePdfFile.MainStep | converter/create_pdf_file.py:17-56 | One more group keeps what `main` has done for the groups before it. |
| Disk.RemoveTree | converter/create_pdf_file.py:28-29 | `rm -rf dir` removes everything at or below the folder and nothing else. |
| Disk.MakeDir | converter/create_pdf_file.py:26 | `mkdir` leaves the folder existing, unless a regular file stands at that path, in which case it fails and changes nothing. It never changes a file. |
| Disk.WriteFile | bigman.py:48-52 | Writing a file sets its contents and leaves every other file alone. |
| Disk.Move | bigman.py:55-56 | `mv` puts the file into the target folder (or at the target path) and removes the source. A missing source changes nothing. |
| Disk.AppendStat | bigman.py:59-61 | Appending to the statistics file adds one line at the end. |
| Disk.FilesUnder | converter/create_pdf_file.py:46-49 | The walk finds exactly the files strictly below the folder. |
| Disk.SiblingsDisjoint | converter/create_pdf_file.py:20-21 | Two sibling folders with different names share no path. |
| Disk.RemoveTreeWellFormed | converter/create_pdf_file.py:28 | `rm -rf` keeps every file's and folder's parent folders in place. |
| Disk.MakeDirWellFormed | converter/create_pdf_file.py:26 | `mkdir` of a folder whose parents exist keeps that property. |
| Disk.WriteFileWellFormed | bigman.py:48 | Writing a file whose parents exist keeps that property. |
| Disk.MoveWellFormed | bigman.py:55-56 | Moving a file into an existing folder, or onto a path whose parent folders exist, keeps that property. |
| Disk.ShellWordConcat | bigman.py:25-29 | Joining two words the shell leaves intact gives another such word. |
| Canvas.PdfCanvas.DrawString | converter/create_pdf_file.py:141 | `drawString` adds the string to the open page. |
| Canvas.PdfCanvas.ShowPage | converter/create_pdf_file.py:136 | `showPage` closes the open page and starts an empty one. |
| Canvas.PdfCanvas.Saved | converter/create_pdf_file.py:145 | The saved document is the closed pages followed by the open page. |
| Layout.LayOut | converter/create_pdf_file.py:131-145 | The saved document has at least one page, and no page holds more than 50 lines. |
| Layout.PageOf | converter/create_pdf_file.py:111-142 | Line k of a page is drawn at the 50-point margin, 14 times k points below 742. |
| Layout.PageFill | converter/create_pdf_file.py:134-138 | Every page but the last holds exactly 50 lines. None holds more. The last is empty only when there are no lines. |
| Layout.CursorBounds | converter/create_pdf_file.py:111-141 | Every string is drawn at x = 50 with y between 50 and 742. |
| Layout.TextsInOrder | converter/create_pdf_file.py:131-142 | Reading the pages in order gives back the drawn lines in order. |
| Layout.LayOutCons | converter/create_pdf_file.py:134-138 | More than 50 lines lay out as a full first page followed by the layout of the rest. |
| Layout.PageBreakWhenFull | converter/create_pdf_file.py:135 | The cursor falls below the margin exactly when the page holds 50 lines. |
| Layout.SavedIsLayOut | converter/create_pdf_file.py:131-145 | The canvas after drawing the lines saves as their layout. |
| Progress.Counters.UpdateProgress | app/progress.py:45-49 | The first counter becomes `min(100, max(0, v + int(increment)))`. The second is unchanged. The value emitted is the new counter. |
| Progress.Counters.UpdateProgress2 | app/progress.py:52-56 | The same for the second counter. |
| Progress.Counters.SetProgress | app/progress.py:59-63 | The first counter becomes `int(max(0, min(100, value)))`. The second is unchanged. The value emitted is the new counter. |
| Progress.Counters.SetProgress2 | app/progress.py:66-70 | The same for the second counter. |
| Progress.Trunc | app/progress.py:48 | `int(x)` truncates toward zero. |
| Progress.UpdatedInRange | app/progress.py:48 | An update stays within 0..100 and is the clamped truncated sum. |
| Progress.UpdateMonotone | app/progress.py:48 | A non-negative increment never lowers a counter. At 100 it stays at 100. |
| Progress.IntegerIncrement | app/progress.py:48 | An integer increment is added and clamped. |
| Progress.SetToInRange | app/progress.py:62 | A set value lies within 0..100. It is the floor for values in range, 0 below and 100 above. |
| Progress.SetToIdempotent | app/progress.py:62 | Setting a counter to the value it already has leaves it unchanged. |
| PyStr.RFind | app/main.py:1037 | The index returned is the last occurrence of the character, or -1 when there is none. |
| PyStr.Splitext | bigman.py:45 | The root and the extension concatenate to the path. The extension is empty exactly when the base name has no dot after a non-dot character. |
| PyStr.ExtSplitIsLastDot | bigman.py:45 | A split happens at the last dot of the path. |
| PyStr.Basename | converter/create_pdf_file.py:103 | The base name has no '/' and is the tail of the path after its last '/'. |
| PyStr.BasenameInDir | bigman.py:55 | The base name of `dir/b` is `b`. |
| PyStr.Join | utils.py:15 | `os.path.join` keeps the first part as a prefix and the last part as a suffix. |
| PyStr.ParseNatToString | bigman.py:46 | The decimal text of an index reads back as the same index. |
| PyStr.NatToStringInjective | bigman.py:46 | Different indices have different decimal texts. |
| PyStr.Lower | app/main.py:1037 | `lower()` keeps the length and maps each character by the ASCII case mapping. |
| PyStr.Upper | app/main.py:1053 | `upper()` keeps the length and maps each character by the ASCII case mapping. |
| PyStr.LowerIdempotent | converter/create_pdf_file.py:159 | Lower-casing twice is lower-casing once, and no upper-case ASCII letter is left. |
| PyStr.LowerEndsWith | converter/create_pdf_file.py:159 | A name ending in ".txt" still ends in ".txt" when lower-cased. |
| PyStr.LStrip | app/main.py:1053 | `lstrip('.')` removes exactly the leading dots. |
| PyStr.Strip | converter/create_pdf_file.py:141 | `strip()` gives a slice of the string surrounded only by whitespace, with no whitespace at either end. |
| PyStr.StrLessIrreflexive | app/main.py:1051 | The string order used by `sorted` is irreflexive. |
| PyStr.StrLessTransitive | app/main.py:1051 | The string order used by `sorted` is transitive. |
| PyStr.StrLessTotal | app/main.py:1051 | Any two different strings are ordered one way or the other. |
| Base64.Encode | bigman.py:51 | `b64encode` writes 4 characters for every 3 bytes or part of them. |
| Base64.DecodeEncode | bigman.py:51 | Decoding the base64 text of any byte string gives the bytes back. |
| Base64.FromToBytesLittle | bigman.py:50 | `int.to_bytes(5, 'little')` is undone by reading the bytes back as a little-endian number. |
| Base64.SmallToBytesLittle | bigman.py:50 | A byte value written as 5 little-endian bytes is that byte followed by four zeros. |
| Seqs.ConcatChunks | converter/create_pdf_file.py:124 | Cutting a sequence into chunks and concatenating them gives the sequence back. |
| Seqs.Chunks | converter/create_pdf_file.py:124 | All chunks are full-size except the last, and there are as few as possible. |
| AppMain.TypeKey | app/main.py:1037 | A type key is never longer than the file name and holds no upper-case ASCII letter. |
| AppMain.TypeKeyShape | app/main.py:1037-1039 | A file's type key is empty exactly when its name has no extension. Otherwise the key starts with '.' and has no '/'. |
| AppMain.Label | app/main.py:1053 | A box label holds no lower-case ASCII letter. |
| AppMain.LabelRecoversKey | app/main.py:1053 | For an ASCII name, the box label lower-cased and prefixed with '.' gives back the type key. |
| AppMain.LabelsDistinct | app/main.py:1053 | For ASCII names, two types with the same label are the same type. |
| AppMain.FoundTypesShape | app/main.py:1035-1039 | A type is found exactly when some file name walked has it as a non-empty key. Every such key starts with a dot. |
| AppMain.ScanFileTypes | app/main.py:1033-1039 | The scanning loop collects the non-empty type keys of every file name the walk yields. |
| AppMain.SortedTypes | app/main.py:1051 | `sorted(file_types_found)` lists each found type exactly once, in strictly increasing order. |
| AppMain.SortedUnique | app/main.py:1051 | Two strictly sorted lists with the same elements are equal, so the sorted order is unique. |
| AppMain.CheckedKeys | app/main.py:939-942 | The selection is the ticked boxes' keys, in the dict's order. |
| AppMain.CheckedKeysSorted | app/main.py:939-942 | The selection taken from sorted keys is sorted. |
| AppMain.BuildCheckboxes | app/main.py:1051-1058 | One box per type, in sorted order, each made by `NewBox` with its index. The dict's keys are distinct. |
| AppMain.CheckboxesFor | app/main.py:1050-1058 | The boxes for the found types form a consistent dict whose keys are those types in sorted order, all ticked. |
| AppMain.MainWindow.constructor | app/main.py:751-787 | The window starts with no folder, status "Ready to start", no boxes, both buttons disabled and no worker. |
| AppMain.MainWindow.UpdateFileTypeCheckboxes | app/main.py:1030-1067 | The boxes are exactly the types found, in sorted order, each new and ticked. One more "no files" label is added when nothing is found, next to any added before. No other state changes. |
| AppMain.MainWindow.UpdateStartButtonState | app/main.py:856-861 | The Start button is enabled exactly when `start_button_enabled` is set. |
| AppMain.MainWindow.OnSelectFolder | app/main.py:1069-1087 | Choosing a folder stores it, enables Start and rescans the types. The boxes are new, labelled, in sorted order and all ticked, and one more "no files" label is added when nothing is found. Cancelling clears the folder and changes only the status. |
| AppMain.Exists | app/main.py:923 | When a path exists on a well-formed disk, the folders above it exist too. |
| AppMain.MainWindow.UpdateButtonStates | app/main.py:863-868 | Start is enabled exactly when not processing and Stop exactly when processing. Processing clears `start_button_enabled`. |
| AppMain.MainWindow.OnStart | app/main.py:920-965 | Start proceeds exactly when the folder is non-empty and exists. It then resets both counters and starts the worker on the folder with the ticked types, switching the buttons. A failure creating or starting the worker is reported in the status. Otherwise only the status changes. |
| AppMain.MainWindow.OnFinished | app/main.py:948-957 | When the worker ends the buttons return to idle, and the status shows the worker's exception or "Processing completed!". |
| AppMain.SelectionAfterScan | app/main.py:939-942 | Right after a scan, Start hands the worker every type found, in sorted order. |

## Left out

- OrganizeFilesByTopDirectories: `os.path.isdir` (utils.py:17) follows symbolic links and `os.walk` (utils.py:21) skips unreadable directories. The `Entry` tree has neither links nor unreadable directories, so these cases are not modelled.
- OrganizeFilesByTopDirectories: the "No directory selected." message is not modelled, nor is any other `print` or `tqdm` progress output.
- Lower: only ASCII letters are lower-cased. Python's `str.lower()` maps all of Unicode.
- Upper: only ASCII letters are upper-cased. Python's `str.upper()` maps all of Unicode.
- CountPages: only PDFs the converter wrote are readable. PyPDF2 would also count the pages of any other valid PDF file, and every such file fails in the model.
- TypeKey: `str.lower()` is modelled for ASCII letters only, while Python lower-cases all of Unicode (app/main.py:1037).
- Label: `str.upper()` is modelled for ASCII letters only, while Python upper-cases all of Unicode (app/main.py:1053).
- LabelRecoversKey: holds only for ASCII names, because of the ASCII-only case mapping.
- LabelsDistinct: holds only for ASCII names. Under Python's full Unicode mapping, ".ß" and ".ss" both get the label "SS".
- UpdateFileTypeCheckboxes: the type keys use the ASCII-only `TypeKey`. The exception branch at app/main.py:1040-1042 is not modelled, because `os.walk` reports listing errors to no one by default.
- ReadText: the text file is decoded one byte per character. UTF-8 decoding of multi-byte sequences, and the `UnicodeDecodeError` it can raise (converter/create_pdf_file.py:121), are not modelled. The files bigman writes are pure ASCII (`EncodeByteAscii`), and for those the two readings agree.
- ConvertTxtToPdf: reads through the byte-per-character `ReadText`. Universal newlines are modelled (`Newlines`), but UTF-8 decoding and its error are not.
- Lines: splits the byte-per-character text. It inherits the gap left by `ReadText`.
- BigmanMain: the listing `state` that the grouping walks and the disk `d` that the stages read are separate parameters, and no precondition ties one to the other. So the model does not promise that each file below a top-level folder of `d` ends up with its chunks in `txtfiles_<group>`.
- BigmanMain: holds only when the working directory, the group names and the file paths are single shell words (`ShellWord`). `os.system` splits names with blanks or shell metacharacters (bigman.py:25-29, 55), and that is not modelled.
- ConvertAllGroups: holds only when the working directory and group names are shell words (converter/create_pdf_file.py:26-30).
- ConvertGroup: holds only when the working directory and group name are shell words.
- ConvertFiles: holds only when the destination folder and every path of the group are shell words (bigman.py:55).
- RunTextStage: holds only when the working directory is a shell word and every group's name and paths are (`ShellGroup`, bigman.py:25-29, 55).
- ConvertGroupText: holds only when the working directory, the group name and its paths are shell words.
- ConvertFile: holds only when the source path and the destination are shell words (bigman.py:55).
- WriteFile: never fails. The `OSError` that `open(..., "w")` can raise at bigman.py:48 (permissions, a missing parent folder, a full disk) is not modelled.
- ReadWavInChunks: a file is either read whole or cannot be opened. An `IOError` in the middle of reading, after some chunks were yielded (bigman.py:78-84), is not modelled.
- UpdateProgress: increments are exact reals. Float rounding, and the `ValueError`/`OverflowError` that `int()` raises on NaN or infinity, are not modelled.
- UpdateProgress2: the same as `UpdateProgress`.
- SetProgress: values are exact reals. Float rounding and NaN/infinity are not modelled.
- SetProgress2: the same as `SetProgress`.
- Trunc: exact real truncation, with no float rounding.
- StatLine: sizes are kept as byte counts. The float `size/1048576` and the way f-strings format it (bigman.py:58-61, converter/create_pdf_file.py:35-37) are not modelled.
- OnStart: the worker-error branch (app/main.py:961-963) is modelled only through the status message. The console `print` is left out. The worker is recorded by its arguments only. The extra second argument that `on_start` passes to `bigman.main`, which takes one, is not modelled.
- ConvertTxtToPdf: `textwrap.wrap` is the parameter `wrap`, and the PDF byte stream is `pdfBytes`. Fonts and the exact bytes reportlab writes are not modelled.
- ConvertFile: assumes `mv` renames within one file system, so the whole text reaches the destination. `mv` runs while the chunk file is still open (bigman.py:48-56). If the working directory lies on another file system, `mv` copies only the bytes flushed so far (what `visible` counts), and the rest goes to the unlinked original. That case is not modelled.
- ChunksLanded: relies on the same one-file-system assumption as ConvertFile. Across file systems a chunk's destination file may hold only a prefix of its text.
- RunTextStage: the statistics file `<cwd>/statfile.txt` is kept as the list `stats`, apart from `files`. If the working directory lies below a top-level folder of the root, the source also groups and chunks that file, including lines appended earlier in the same run. In the model, appending a line never changes `files`, so a chunked `statfile.txt` is read without the lines the run added.
- BigmanMain: inherits RunTextStage's separation of the statistics file from `files`.
- ConvertFile: the size `os.path.getsize` sees while the file is still open is the parameter `visible`. The model does not decide how much of the buffer has reached the disk.
- The worker thread, Qt signals, `on_stop`, the menus and the help, log, licence and tutorial windows are not modelled. Neither are `get_all_file_paths` and its tkinter dialog (bigman.py:87-106, converter/create_pdf_file.py:62-81).
- Threads and concurrency are not modelled. The progress counters are treated as updated by one caller at a time.
