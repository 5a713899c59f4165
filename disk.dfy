/** The file system as the pipeline sees it: a set of directory paths, the
    files by path, and the lines appended to `statfile.txt`. The shell
    commands the pipeline runs (`mkdir`, `rm -rf`, `mv`) and the Python
    file operations it uses are functions from one state to the next. */
module Disk {
  import opened PyStr
  import opened Canvas
  import Base64

  type byte = Base64.byte

  /** A file is either plain bytes or a PDF written by the converter,
      kept with its page structure and the bytes it was saved as. */
  datatype FileData = Bytes(data: seq<byte>) | Pdf(doc: Document, bytes: seq<byte>)

  /** One line of `statfile.txt`. Sizes are byte counts; the source
      divides them by 1048576 and prints the float. */
  datatype StatLine =
    | TxtSize(group: string, bytes: nat)
    | PdfSize(group: string, bytes: nat)
    | PdfPages(group: string, pages: nat)

  datatype Disk = Disk(dirs: set<string>, files: map<string, FileData>, stats: seq<StatLine>)

  /** What `open(path, "rb").read()` returns. */
  function Content(f: FileData): (r: seq<byte>)
    ensures f.Bytes? ==> r == f.data
    ensures f.Pdf? ==> r == f.bytes
  {
    match f
    case Bytes(data) => data
    case Pdf(_, bytes) => bytes
  }

  /** `os.path.getsize(path)`. */
  function Size(f: FileData): (n: nat)
    ensures n == |Content(f)|
  {
    |Content(f)|
  }

  /** `p` lies strictly below directory `dir`. */
  predicate Under(p: string, dir: string) {
    StartsWith(p, dir + "/")
  }

  predicate AtOrUnder(p: string, dir: string) {
    p == dir || Under(p, dir)
  }

  /** Replacing what follows `r` by text without a '/' cannot move a path
      below a directory it was not below. */
  lemma NotUnderSwap(r: string, e: string, t: string, dir: string)
    requires !Under(r + e, dir) && '/' !in t
    ensures !Under(r + t, dir)
  {
    var n := |dir| + 1;
    if |r| < n <= |r + t| {
      assert (r + t)[|dir|] == t[|dir| - |r|];
    }
  }

  /** Text that `sh` reads back as this one word when it is pasted unquoted
      into a command line: no blank, no quote, and no character the shell
      expands or treats as an operator. */
  predicate ShellWord(s: string) {
    forall k :: 0 <= k < |s| ==> ShellChar(s[k])
  }

  predicate ShellChar(c: char) {
    !(|| c == ' ' || c == '\t' || c == '\n' || c == '"' || c == '\'' || c == '`' || c == '\\'
      || c == '$' || c == ';' || c == '&' || c == '|' || c == '<' || c == '>' || c == '('
      || c == ')' || c == '*' || c == '?' || c == '[' || c == ']' || c == '{' || c == '}'
      || c == '~' || c == '#')
  }

  lemma ShellWordConcat(a: string, b: string)
    requires ShellWord(a) && ShellWord(b)
    ensures ShellWord(a + b)
  {
    forall k | 0 <= k < |a + b| ensures (a + b)[k] == if k < |a| then a[k] else b[k - |a|] {
    }
  }

  /** A state a real file system can be in: every path a file or a
      directory lies below is a directory. */
  ghost predicate WellFormed(d: Disk) {
    && (forall p, q :: p in d.files && Under(p, q) ==> q in d.dirs)
    && (forall p, q :: p in d.dirs && Under(p, q) ==> q in d.dirs)
  }

  /** Every directory that `p` lies below is in `d`. */
  ghost predicate AncestorsIn(d: Disk, p: string) {
    forall q :: Under(p, q) ==> q in d.dirs
  }

  /** Below something that is below `dir` is below `dir`. */
  lemma UnderTransitive(p: string, q: string, dir: string)
    requires Under(p, q) && AtOrUnder(q, dir)
    ensures Under(p, dir)
  {
    if q != dir {
      assert p[..|dir| + 1] == q[..|dir| + 1];
    }
  }

  /** A path made of `parent`, '/' and a name lies directly below `parent`:
      the only directories above it are `parent` and those above it. */
  lemma ChildAncestors(parent: string, child: string)
    requires '/' !in child
    ensures forall q :: Under(parent + "/" + child, q) ==> q == parent || Under(parent, q)
  {
    var s := parent + "/" + child;
    forall q | Under(s, q) ensures q == parent || Under(parent, q) {
      assert s[|q|] == '/';
      if |q| == |parent| {
        assert q == s[..|parent|] == parent;
      } else {
        assert parent[..|q| + 1] == s[..|q| + 1];
      }
    }
  }

  /** On a well-formed disk a path that is not a directory has no file
      below it. */
  lemma NoFilesBelowNonDir(d: Disk, dir: string)
    ensures WellFormed(d) && dir !in d.dirs ==> FilesUnder(d, dir) == {}
  {
  }

  /** `rm -rf dir`: nothing at or below `dir` is left, the rest stays. */
  function RemoveTree(d: Disk, dir: string): (r: Disk)
    ensures forall p :: p in r.files <==> p in d.files && !AtOrUnder(p, dir)
    ensures forall p :: p in r.files ==> r.files[p] == d.files[p]
    ensures forall q :: q in r.dirs <==> q in d.dirs && !AtOrUnder(q, dir)
    ensures r.stats == d.stats
  {
    Disk(set q | q in d.dirs && !AtOrUnder(q, dir),
         map p | p in d.files && !AtOrUnder(p, dir) :: d.files[p],
         d.stats)
  }

  /** A regular file, and no directory, stands at `p`. */
  predicate RegularFileAt(d: Disk, p: string) {
    p in d.files && p !in d.dirs
  }

  /** `mkdir dir`: the folder exists afterwards, unless a regular file
      stands at that path, in which case `mkdir` fails and nothing
      changes (an existing directory is left as it is). */
  function MakeDir(d: Disk, dir: string): (r: Disk)
    ensures r.dirs == if RegularFileAt(d, dir) then d.dirs else d.dirs + {dir}
    ensures dir in r.dirs <==> !RegularFileAt(d, dir)
    ensures r.files == d.files && r.stats == d.stats
  {
    if RegularFileAt(d, dir) then d else d.(dirs := d.dirs + {dir})
  }

  /** `open(p, "w")` followed by writes: the file now holds `f`. */
  function WriteFile(d: Disk, p: string, f: FileData): (r: Disk)
    ensures r.files.Keys == d.files.Keys + {p}
    ensures r.files[p] == f
    ensures forall q :: q in d.files && q != p ==> r.files[q] == d.files[q]
    ensures r.dirs == d.dirs && r.stats == d.stats
  {
    d.(files := d.files[p := f])
  }

  /** Where `mv src dst` puts the file: into `dst` when it is a directory,
      else at `dst` itself. */
  function MoveTarget(d: Disk, src: string, dst: string): string {
    if dst in d.dirs then Join(dst, Basename(src)) else dst
  }

  /** `mv src dst`: the file leaves `src` and appears at its target; a
      missing `src` makes `mv` fail and change nothing. */
  function Move(d: Disk, src: string, dst: string): (r: Disk)
    ensures src !in d.files ==> r == d
    ensures src in d.files ==>
              && MoveTarget(d, src, dst) in r.files
              && r.files[MoveTarget(d, src, dst)] == d.files[src]
              && (src != MoveTarget(d, src, dst) ==> src !in r.files)
    ensures forall q :: q != src && q != MoveTarget(d, src, dst) ==>
              (q in r.files <==> q in d.files) && (q in r.files ==> r.files[q] == d.files[q])
    ensures r.dirs == d.dirs && r.stats == d.stats
  {
    if src !in d.files then d
    else
      var target := MoveTarget(d, src, dst);
      d.(files := (d.files - {src})[target := d.files[src]])
  }

  /** `open(stat_file, "at").write(line)`. */
  function AppendStat(d: Disk, line: StatLine): (r: Disk)
    ensures r.stats == d.stats + [line]
    ensures r.dirs == d.dirs && r.files == d.files
  {
    d.(stats := d.stats + [line])
  }

  /** The files that `os.walk(dir)` finds. */
  function FilesUnder(d: Disk, dir: string): (s: set<string>)
    ensures forall p :: p in s <==> p in d.files && Under(p, dir)
  {
    set p | p in d.files && Under(p, dir)
  }

  /** Two sibling directories `pre + a` and `pre + b` with different names
      have nothing below them in common. */
  lemma SiblingsDisjoint(pre: string, a: string, b: string, p: string)
    requires IsName(a) && IsName(b) && a != b
    ensures !(Under(p, pre + a) && Under(p, pre + b))
  {
    if Under(p, pre + a) {
      FirstComponent(p, pre, a);
    }
    if Under(p, pre + b) {
      FirstComponent(p, pre, b);
    }
  }

  /** Directories whose names differ right after a common prefix, neither
      name being a prefix of the other, have nothing below them in
      common. */
  lemma DivergingDisjoint(pre: string, a: string, b: string, p: string)
    requires a != [] && b != [] && a[0] != b[0]
    ensures !(AtOrUnder(p, pre + a) && AtOrUnder(p, pre + b))
  {
    if AtOrUnder(p, pre + a) && |p| > |pre| {
      assert p[|pre|] == (pre + a)[|pre|];
    }
    if AtOrUnder(p, pre + b) && |p| > |pre| {
      assert p[|pre|] == (pre + b)[|pre|];
    }
  }

  // ---------------------------------------------------------------------------
  // The operations keep the disk well-formed

  /** `rm -rf` never leaves a file or directory without its parents. */
  lemma RemoveTreeWellFormed(d: Disk, dir: string)
    requires WellFormed(d)
    ensures WellFormed(RemoveTree(d, dir))
  {
    var r := RemoveTree(d, dir);
    forall p, q | (p in r.files || p in r.dirs) && Under(p, q) ensures q in r.dirs {
      if AtOrUnder(q, dir) {
        UnderTransitive(p, q, dir);
      }
    }
  }

  /** `mkdir dir` keeps the disk well-formed when the directories above
      `dir` exist. */
  lemma MakeDirWellFormed(d: Disk, dir: string)
    requires WellFormed(d) && AncestorsIn(d, dir)
    ensures WellFormed(MakeDir(d, dir))
  {
  }

  /** Writing a file keeps the disk well-formed when the directories above
      it exist. */
  lemma WriteFileWellFormed(d: Disk, p: string, f: FileData)
    requires WellFormed(d) && AncestorsIn(d, p)
    ensures WellFormed(WriteFile(d, p, f))
  {
  }

  /** `mv src dst` keeps the disk well-formed when the directories above
      `dst` exist, whether it moves the file into the directory `dst` or
      onto the path `dst` itself. */
  lemma MoveWellFormed(d: Disk, src: string, dst: string)
    requires WellFormed(d) && AncestorsIn(d, dst) && dst != [] && dst[|dst| - 1] != '/'
    ensures WellFormed(Move(d, src, dst))
  {
    if src in d.files && dst in d.dirs {
      var b := Basename(src);
      if b != [] {
        assert b[0] in b;
      }
      var target := dst + "/" + b;
      assert MoveTarget(d, src, dst) == target;
      ChildAncestors(dst, b);
      var r := Move(d, src, dst);
      forall p, q | p in r.files && Under(p, q) ensures q in r.dirs {
        if p != target {
          assert p in d.files;
        }
      }
    }
  }
}
