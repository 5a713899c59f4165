/** `organize_files_by_top_directories` (utils.py): every immediate
    subdirectory of a root becomes one group, holding every file found
    beneath it by `os.walk`, in walk order.

    The file system is a tree of entries. `os.listdir` on the root gives
    its entries in directory order, `os.walk` visits a directory top-down
    (its own files first, then each subdirectory in order), and the
    Python dict the function builds is an insertion-ordered sequence of
    groups. */
module Utils {
  import opened Wrappers
  import opened PyStr
  import opened Seqs

  /** A directory entry: a file, or a directory with its own entries. */
  datatype Entry = File(name: string) | Dir(name: string, entries: seq<Entry>)

  /** What the root path is when `os.listdir` looks at it. */
  datatype RootState = Missing | NotADirectory | Listing(entries: seq<Entry>)

  /** The exceptions `os.listdir` raises, which the function does not catch. */
  datatype OsError = FileNotFound(path: string) | NotADirectoryError(path: string)

  /** One triple yielded by `os.walk`: the directory path and the names of
      the files in it (the list of subdirectory names is not used). */
  datatype WalkStep = WalkStep(dirpath: string, filenames: seq<string>)

  /** One key of the dict with its list of file paths. */
  datatype Group = Group(name: string, files: seq<string>)

  // ---------------------------------------------------------------------------
  // The tree and `os.walk`

  /** The names of the plain files among `es`, in order. */
  function FileNames(es: seq<Entry>): (r: seq<string>)
    ensures forall f :: f in r <==> exists i :: 0 <= i < |es| && es[i].File? && es[i].name == f
  {
    if es == [] then []
    else
      var rest := FileNames(es[1..]);
      assert forall i :: 0 < i < |es| ==> es[i] == es[1..][i - 1];
      (if es[0].File? then [es[0].name] else []) + rest
  }

  /** `os.walk(top)` over a directory holding `es`, top-down. */
  function OsWalk(top: string, es: seq<Entry>): (r: seq<WalkStep>)
    ensures r != [] && r[0] == WalkStep(top, FileNames(es))
    decreases es, 1
  {
    [WalkStep(top, FileNames(es))] + WalkSubdirs(top, es)
  }

  /** The walks of the subdirectories among `es`, one after the other. */
  function WalkSubdirs(top: string, es: seq<Entry>): seq<WalkStep>
    decreases es, 0
  {
    if es == [] then []
    else
      (match es[0]
       case File(_) => []
       case Dir(n, sub) => OsWalk(Join(top, n), sub))
      + WalkSubdirs(top, es[1..])
  }

  /** `[os.path.join(dirpath, f) for f in filenames]`. */
  function Joined(dirpath: string, names: seq<string>): (r: seq<string>)
    ensures |r| == |names|
    ensures forall i :: 0 <= i < |names| ==> r[i] == Join(dirpath, names[i])
  {
    seq(|names|, i requires 0 <= i < |names| => Join(dirpath, names[i]))
  }

  /** The paths the inner loops of utils.py append, walk step by walk step. */
  function Collected(steps: seq<WalkStep>): seq<string> {
    if steps == [] then [] else Joined(steps[0].dirpath, steps[0].filenames) + Collected(steps[1..])
  }

  /** The list stored under a subdirectory at `top` holding `es`. */
  function SubtreeFiles(top: string, es: seq<Entry>): seq<string> {
    Collected(OsWalk(top, es))
  }

  // ---------------------------------------------------------------------------
  // The dict

  function KeySet(fs: seq<Group>): set<string> {
    set i | 0 <= i < |fs| :: fs[i].name
  }

  ghost predicate DistinctKeys(fs: seq<Group>) {
    forall i, j :: 0 <= i < j < |fs| ==> fs[i].name != fs[j].name
  }

  /** The position of key `k`, or |fs| when `k` is not a key. */
  function IndexOf(fs: seq<Group>, k: string): (r: nat)
    ensures r <= |fs|
    ensures r < |fs| ==> fs[r].name == k
    ensures forall j :: 0 <= j < r ==> fs[j].name != k
  {
    if fs == [] then 0 else if fs[0].name == k then 0 else 1 + IndexOf(fs[1..], k)
  }

  lemma IndexOfUnique(fs: seq<Group>, k: string, i: nat)
    requires i <= |fs| && (i < |fs| ==> fs[i].name == k)
    requires forall j :: 0 <= j < i ==> fs[j].name != k
    ensures IndexOf(fs, k) == i
  {
  }

  /** `fs.get(k)`. */
  function Lookup(fs: seq<Group>, k: string): (r: Option<seq<string>>)
    ensures r.None? <==> k !in KeySet(fs)
  {
    var i := IndexOf(fs, k);
    if i < |fs| then Some(fs[i].files) else None
  }

  /** `fs[k] = v`: an existing key keeps its place and gets the new list,
      a new key goes last. */
  function DictSet(fs: seq<Group>, k: string, v: seq<string>): (r: seq<Group>)
    ensures k in KeySet(fs) ==> |r| == |fs|
    ensures k !in KeySet(fs) ==> |r| == |fs| + 1 && r[|fs|] == Group(k, v)
    ensures forall i :: 0 <= i < |fs| ==> r[i] == fs[i] || (r[i] == Group(k, v) && fs[i].name == k)
  {
    var i := IndexOf(fs, k);
    if i < |fs| then fs[i := Group(k, v)] else fs + [Group(k, v)]
  }

  /** After `fs[k] = v`, `k` maps to `v`, every other key keeps its list,
      and the keys are the old ones and `k`, still without repetition. */
  lemma DictSetLookup(fs: seq<Group>, k: string, v: seq<string>, k': string)
    ensures Lookup(DictSet(fs, k, v), k) == Some(v)
    ensures k' != k ==> Lookup(DictSet(fs, k, v), k') == Lookup(fs, k')
  {
    var r := DictSet(fs, k, v);
    var i := IndexOf(fs, k);
    IndexOfUnique(r, k, i);
    if k' != k {
      var j := IndexOf(fs, k');
      if j < |fs| {
        IndexOfUnique(r, k', j);
      } else if i == |fs| {
        IndexOfUnique(r, k', |r|);
      } else {
        IndexOfUnique(r, k', |r|);
      }
    }
  }

  lemma DictSetKeys(fs: seq<Group>, k: string, v: seq<string>)
    ensures KeySet(DictSet(fs, k, v)) == KeySet(fs) + {k}
    ensures DistinctKeys(fs) ==> DistinctKeys(DictSet(fs, k, v))
    ensures forall g :: g in DictSet(fs, k, v) ==> g == Group(k, v) || g in fs
  {
    var r := DictSet(fs, k, v);
    var i := IndexOf(fs, k);
    assert k == r[if i < |fs| then i else |fs|].name;
    forall n | n in KeySet(r) ensures n in KeySet(fs) + {k} {
      var j :| 0 <= j < |r| && r[j].name == n;
    }
    forall n | n in KeySet(fs) ensures n in KeySet(r) {
      var j :| 0 <= j < |fs| && fs[j].name == n;
      assert r[j].name == n;
    }
  }

  // ---------------------------------------------------------------------------
  // The grouping

  /** The dict after the loop over the root entries `es`, in listing order. */
  function Grouping(root: string, es: seq<Entry>): (r: seq<Group>)
    ensures DistinctKeys(r)
    decreases |es|
  {
    if es == [] then []
    else
      var acc := Grouping(root, es[..|es| - 1]);
      match es[|es| - 1]
      case File(_) => acc
      case Dir(n, sub) =>
        DictSetKeys(acc, n, SubtreeFiles(Join(root, n), sub));
        DictSet(acc, n, SubtreeFiles(Join(root, n), sub))
  }

  /** `organize_files_by_top_directories(root)`: an empty root gives an
      empty dict without looking at the file system; a root `os.listdir`
      cannot list raises; otherwise every subdirectory is walked. */
  method OrganizeFilesByTopDirectories(root: string, state: RootState)
    returns (r: Result<seq<Group>, OsError>)
    ensures root == [] ==> r == Ok([])
    ensures root != [] && state.Missing? ==> r == Err(FileNotFound(root))
    ensures root != [] && state.NotADirectory? ==> r == Err(NotADirectoryError(root))
    ensures root != [] && state.Listing? ==> r == Ok(Grouping(root, state.entries))
  {
    if root == [] {
      return Ok([]);
    }
    match state {
      case Missing => return Err(FileNotFound(root));
      case NotADirectory => return Err(NotADirectoryError(root));
      case Listing(es) =>
        var fileStructure: seq<Group> := [];
        for i := 0 to |es|
          invariant fileStructure == Grouping(root, es[..i])
        {
          assert es[..i + 1][..i] == es[..i];
          var entry := es[i];
          var dirPath := Join(root, entry.name);
          if entry.Dir? {
            var files := CollectWalk(OsWalk(dirPath, entry.entries));
            fileStructure := DictSet(fileStructure, entry.name, files);
          }
        }
        assert es[..|es|] == es;
        return Ok(fileStructure);
    }
  }

  /** The two inner loops of utils.py: every file name of every walk step,
      joined to its directory path, appended in order. */
  method CollectWalk(steps: seq<WalkStep>) returns (files: seq<string>)
    ensures files == Collected(steps)
  {
    files := [];
    for j := 0 to |steps|
      invariant files == Collected(steps[..j])
    {
      files := AppendStep(files, steps[j]);
      CollectedSnoc(steps[..j], steps[j]);
      assert steps[..j + 1] == steps[..j] + [steps[j]];
    }
    assert steps[..|steps|] == steps;
  }

  /** The innermost loop: one path per file name of a walk step. */
  method AppendStep(files: seq<string>, step: WalkStep) returns (r: seq<string>)
    ensures r == files + Joined(step.dirpath, step.filenames)
  {
    var dirpath, names := step.dirpath, step.filenames;
    r := files;
    for k := 0 to |names|
      invariant r == files + Joined(dirpath, names[..k])
    {
      r := r + [Join(dirpath, names[k])];
      JoinedSnoc(dirpath, names, k);
    }
    assert names[..|names|] == names;
  }

  lemma JoinedSnoc(dirpath: string, names: seq<string>, k: nat)
    requires k < |names|
    ensures Joined(dirpath, names[..k + 1]) == Joined(dirpath, names[..k]) + [Join(dirpath, names[k])]
  {
  }

  // ---------------------------------------------------------------------------
  // Lemmas about walking

  lemma {:induction false} CollectedAppend(a: seq<WalkStep>, b: seq<WalkStep>)
    ensures Collected(a + b) == Collected(a) + Collected(b)
  {
    if a == [] {
      assert a + b == b;
    } else {
      assert (a + b)[0] == a[0];
      assert (a + b)[1..] == a[1..] + b;
      CollectedAppend(a[1..], b);
    }
  }

  lemma CollectedSnoc(a: seq<WalkStep>, s: WalkStep)
    ensures Collected(a + [s]) == Collected(a) + Joined(s.dirpath, s.filenames)
  {
    CollectedAppend(a, [s]);
  }

  /** The files of a subtree are those of the directory itself, then
      those of each subdirectory in order. */
  lemma SubtreeFilesSplit(top: string, es: seq<Entry>)
    ensures SubtreeFiles(top, es) == Joined(top, FileNames(es)) + Collected(WalkSubdirs(top, es))
  {
    CollectedAppend([WalkStep(top, FileNames(es))], WalkSubdirs(top, es));
  }

  /** The subdirectory part of a walk, entry by entry. */
  lemma SubdirFilesCons(top: string, es: seq<Entry>)
    requires es != []
    ensures Collected(WalkSubdirs(top, es))
         == (if es[0].Dir? then SubtreeFiles(Join(top, es[0].name), es[0].entries) else [])
            + Collected(WalkSubdirs(top, es[1..]))
  {
    var head := if es[0].Dir? then OsWalk(Join(top, es[0].name), es[0].entries) else [];
    CollectedAppend(head, WalkSubdirs(top, es[1..]));
  }

  /** The number of plain files anywhere under `es`. */
  function FileCount(es: seq<Entry>): nat
    decreases es
  {
    if es == [] then 0
    else
      (match es[0]
       case File(_) => 1
       case Dir(_, sub) => FileCount(sub))
      + FileCount(es[1..])
  }

  function DirectFileCount(es: seq<Entry>): nat {
    if es == [] then 0 else (if es[0].File? then 1 else 0) + DirectFileCount(es[1..])
  }

  lemma {:induction false} FileNamesCount(es: seq<Entry>)
    ensures |FileNames(es)| == DirectFileCount(es)
  {
    if es != [] {
      FileNamesCount(es[1..]);
    }
  }

  /** Every file under a subdirectory is listed exactly as often as it
      occurs: the list has one path per file of the subtree. */
  lemma {:induction false} SubtreeFilesCount(top: string, es: seq<Entry>)
    ensures |SubtreeFiles(top, es)| == FileCount(es)
    decreases es, 1
  {
    SubtreeFilesSplit(top, es);
    FileNamesCount(es);
    SubdirFilesCount(top, es);
  }

  lemma {:induction false} SubdirFilesCount(top: string, es: seq<Entry>)
    ensures |Collected(WalkSubdirs(top, es))| + DirectFileCount(es) == FileCount(es)
    decreases es, 0
  {
    if es != [] {
      SubdirFilesCount(top, es[1..]);
      SubdirFilesCons(top, es);
      if es[0].Dir? {
        SubtreeFilesCount(Join(top, es[0].name), es[0].entries);
      }
    }
  }

  // ---------------------------------------------------------------------------
  // Which paths a subtree holds

  /** `comps` names a plain file below `es`, one path component per level. */
  ghost predicate InTree(es: seq<Entry>, comps: seq<string>)
    decreases es
  {
    && |comps| > 0
    && exists i :: 0 <= i < |es| && es[i].name == comps[0] &&
         (if |comps| == 1 then es[i].File?
          else es[i].Dir? && InTree(es[i].entries, comps[1..]))
  }

  /** `os.path.join(top, c1, c2, ...)`. */
  function JoinAll(top: string, comps: seq<string>): string
    decreases |comps|
  {
    if comps == [] then top else JoinAll(Join(top, comps[0]), comps[1..])
  }

  /** Every file of the subtree is in its list. */
  lemma {:induction false} SubtreeFilesComplete(top: string, es: seq<Entry>, comps: seq<string>)
    requires InTree(es, comps)
    ensures JoinAll(top, comps) in SubtreeFiles(top, es)
    decreases es, 1
  {
    SubtreeFilesSplit(top, es);
    var i :| 0 <= i < |es| && es[i].name == comps[0] &&
         (if |comps| == 1 then es[i].File? else es[i].Dir? && InTree(es[i].entries, comps[1..]));
    if |comps| == 1 {
      assert comps[0] in FileNames(es);
      var k :| 0 <= k < |FileNames(es)| && FileNames(es)[k] == comps[0];
      assert Joined(top, FileNames(es))[k] == JoinAll(top, comps);
    } else {
      SubdirFilesComplete(top, es, i, comps);
    }
  }

  lemma {:induction false} SubdirFilesComplete(top: string, es: seq<Entry>, i: nat, comps: seq<string>)
    requires i < |es| && |comps| > 1 && es[i].Dir? && es[i].name == comps[0]
    requires InTree(es[i].entries, comps[1..])
    ensures JoinAll(top, comps) in Collected(WalkSubdirs(top, es))
    decreases es, 0, i
  {
    SubdirFilesCons(top, es);
    if i == 0 {
      SubtreeFilesComplete(Join(top, comps[0]), es[0].entries, comps[1..]);
    } else {
      assert es[1..][i - 1] == es[i];
      SubdirFilesComplete(top, es[1..], i - 1, comps);
    }
  }

  lemma InTreeFile(es: seq<Entry>, i: nat)
    requires i < |es| && es[i].File?
    ensures InTree(es, [es[i].name])
  {
  }

  lemma InTreeDir(es: seq<Entry>, i: nat, rest: seq<string>)
    requires i < |es| && es[i].Dir? && InTree(es[i].entries, rest)
    ensures InTree(es, [es[i].name] + rest)
  {
    assert ([es[i].name] + rest)[1..] == rest;
  }

  /** Nothing but the files of the subtree is in its list. */
  lemma SubtreeFilesSound(top: string, es: seq<Entry>, p: string)
    requires p in SubtreeFiles(top, es)
    ensures exists comps :: InTree(es, comps) && JoinAll(top, comps) == p
  {
    var comps := SubtreeWitness(top, es, p);
  }

  lemma {:induction false} SubtreeWitness(top: string, es: seq<Entry>, p: string)
    returns (comps: seq<string>)
    requires p in SubtreeFiles(top, es)
    ensures InTree(es, comps) && JoinAll(top, comps) == p
    decreases es, 1
  {
    SubtreeFilesSplit(top, es);
    var direct := Joined(top, FileNames(es));
    if p in direct {
      var k :| 0 <= k < |direct| && direct[k] == p;
      var f := FileNames(es)[k];
      assert f in FileNames(es);
      var i :| 0 <= i < |es| && es[i].File? && es[i].name == f;
      comps := [f];
      InTreeFile(es, i);
      JoinAllOne(top, f);
    } else {
      comps := SubdirWitness(top, es, p);
    }
  }

  lemma JoinAllOne(top: string, f: string)
    ensures JoinAll(top, [f]) == Join(top, f)
  {
    assert [f][1..] == [];
  }

  lemma {:induction false} SubdirWitness(top: string, es: seq<Entry>, p: string)
    returns (comps: seq<string>)
    requires p in Collected(WalkSubdirs(top, es))
    ensures InTree(es, comps) && JoinAll(top, comps) == p
    decreases es, 0
  {
    SubdirFilesCons(top, es);
    if es[0].Dir? && p in SubtreeFiles(Join(top, es[0].name), es[0].entries) {
      var rest := SubtreeWitness(Join(top, es[0].name), es[0].entries, p);
      comps := [es[0].name] + rest;
      InTreeDir(es, 0, rest);
      assert comps[1..] == rest;
    } else {
      comps := SubdirWitness(top, es[1..], p);
      InTreeShift(es, comps);
    }
  }

  lemma InTreeShift(es: seq<Entry>, comps: seq<string>)
    requires es != [] && InTree(es[1..], comps)
    ensures InTree(es, comps)
  {
    var i :| 0 <= i < |es[1..]| && es[1..][i].name == comps[0] &&
       (if |comps| == 1 then es[1..][i].File?
        else es[1..][i].Dir? && InTree(es[1..][i].entries, comps[1..]));
    assert es[i + 1] == es[1..][i];
  }

  // ---------------------------------------------------------------------------
  // Paths below a directory start with that directory and a separator

  /** Every name in the tree is a proper path component, and the names in
      one directory are distinct, as on a real file system. */
  ghost predicate WellFormed(es: seq<Entry>)
    decreases es
  {
    && (forall i :: 0 <= i < |es| ==> IsName(es[i].name))
    && (forall i, j :: 0 <= i < j < |es| ==> es[i].name != es[j].name)
    && (forall i :: 0 <= i < |es| && es[i].Dir? ==> WellFormed(es[i].entries))
  }

  /** A directory path that `os.path.join` extends with a '/'. */
  predicate IsDirPath(top: string) {
    top != [] && top[|top| - 1] != '/'
  }

  lemma {:induction false} JoinAllPrefix(top: string, comps: seq<string>)
    requires IsDirPath(top) && |comps| > 0
    requires forall k :: 0 <= k < |comps| ==> IsName(comps[k])
    ensures StartsWith(JoinAll(top, comps), top + "/")
    ensures IsDirPath(JoinAll(top, comps))
    decreases |comps|
  {
    JoinName(top, comps[0]);
    var next := Join(top, comps[0]);
    assert next == top + "/" + comps[0];
    if |comps| > 1 {
      JoinAllPrefix(next, comps[1..]);
      assert StartsWith(JoinAll(next, comps[1..]), next + "/");
      assert (next + "/")[..|top| + 1] == top + "/";
    } else {
      assert JoinAll(next, comps[1..]) == next;
    }
  }

  lemma {:induction false} InTreeNames(es: seq<Entry>, comps: seq<string>)
    requires WellFormed(es) && InTree(es, comps)
    ensures forall k :: 0 <= k < |comps| ==> IsName(comps[k])
    decreases es
  {
    var i :| 0 <= i < |es| && es[i].name == comps[0] &&
         (if |comps| == 1 then es[i].File? else es[i].Dir? && InTree(es[i].entries, comps[1..]));
    if |comps| > 1 {
      InTreeNames(es[i].entries, comps[1..]);
      assert forall k :: 1 <= k < |comps| ==> comps[k] == comps[1..][k - 1];
    }
  }

  /** Every path in the list of a subdirectory lies strictly below it. */
  lemma SubtreeFilesBelow(top: string, es: seq<Entry>, p: string)
    requires IsDirPath(top) && WellFormed(es) && p in SubtreeFiles(top, es)
    ensures StartsWith(p, top + "/")
  {
    SubtreeFilesSound(top, es, p);
    var comps :| InTree(es, comps) && JoinAll(top, comps) == p;
    InTreeNames(es, comps);
    JoinAllPrefix(top, comps);
  }

  // ---------------------------------------------------------------------------
  // Properties of the result

  /** Each group's list is the walk of a subdirectory with that name. */
  ghost predicate FromSubdir(root: string, es: seq<Entry>, g: Group) {
    exists i :: 0 <= i < |es| && es[i].Dir? && es[i].name == g.name
      && g.files == SubtreeFiles(Join(root, es[i].name), es[i].entries)
  }

  function SubdirNames(es: seq<Entry>): set<string> {
    set i | 0 <= i < |es| && es[i].Dir? :: es[i].name
  }

  /** The keys are exactly the subdirectories of the root, each once, and
      every group holds the walk of its subdirectory. */
  lemma {:induction false} GroupingShape(root: string, es: seq<Entry>)
    ensures KeySet(Grouping(root, es)) == SubdirNames(es)
    ensures DistinctKeys(Grouping(root, es))
    ensures forall g :: g in Grouping(root, es) ==> FromSubdir(root, es, g)
    decreases |es|
  {
    if es != [] {
      var init := es[..|es| - 1];
      GroupingShape(root, init);
      var last := es[|es| - 1];
      GroupingStep(root, es);
      if last.Dir? {
        DictSetKeys(Grouping(root, init), last.name, SubtreeFiles(Join(root, last.name), last.entries));
      }
      forall g | g in Grouping(root, es) ensures FromSubdir(root, es, g) {
        if g in Grouping(root, init) {
          FromSubdirExtend(root, es, g);
        } else {
          assert FromSubdir(root, es, g) by {
            assert es[|es| - 1].name == g.name;
          }
        }
      }
    }
  }

  lemma GroupingStep(root: string, es: seq<Entry>)
    requires es != []
    ensures SubdirNames(es) == SubdirNames(es[..|es| - 1])
              + (if es[|es| - 1].Dir? then {es[|es| - 1].name} else {})
  {
    var init := es[..|es| - 1];
    assert forall i :: 0 <= i < |init| ==> init[i] == es[i];
  }

  lemma FromSubdirExtend(root: string, es: seq<Entry>, g: Group)
    requires es != [] && FromSubdir(root, es[..|es| - 1], g)
    ensures FromSubdir(root, es, g)
  {
    var init := es[..|es| - 1];
    var i :| 0 <= i < |init| && init[i].Dir? && init[i].name == g.name
      && g.files == SubtreeFiles(Join(root, init[i].name), init[i].entries);
    assert es[i] == init[i];
  }

  /** An immediate subdirectory's key holds every file beneath it, and
      nothing else; a subdirectory without files gets an empty list. */
  lemma GroupingLookup(root: string, es: seq<Entry>, i: nat)
    requires WellFormed(es) && i < |es| && es[i].Dir?
    ensures Lookup(Grouping(root, es), es[i].name)
         == Some(SubtreeFiles(Join(root, es[i].name), es[i].entries))
    ensures FileCount(es[i].entries) == 0 ==> Lookup(Grouping(root, es), es[i].name) == Some([])
  {
    GroupingShape(root, es);
    var r := Grouping(root, es);
    assert es[i].name in SubdirNames(es);
    var k := IndexOf(r, es[i].name);
    assert r[k] in r;
    assert FromSubdir(root, es, r[k]);
    SubtreeFilesCount(Join(root, es[i].name), es[i].entries);
  }

  /** Every path in a group lies below the root, inside the subdirectory
      the group is named after. */
  lemma GroupPaths(root: string, es: seq<Entry>, g: Group)
    requires root != [] && WellFormed(es) && g in Grouping(root, es)
    ensures forall p :: p in g.files ==> StartsWith(p, DirPrefix(root) + g.name + "/")
    ensures IsName(g.name)
  {
    GroupingShape(root, es);
    assert FromSubdir(root, es, g);
    var j :| 0 <= j < |es| && es[j].Dir? && es[j].name == g.name
      && g.files == SubtreeFiles(Join(root, es[j].name), es[j].entries);
    forall p | p in g.files ensures StartsWith(p, DirPrefix(root) + g.name + "/") {
      BelowRoot(root, es[j], p);
    }
  }

  /** No path appears in two groups. */
  lemma GroupsDisjoint(root: string, es: seq<Entry>, a: nat, b: nat)
    requires root != [] && WellFormed(es)
    requires a < b < |Grouping(root, es)|
    ensures forall p :: p in Grouping(root, es)[a].files ==> p !in Grouping(root, es)[b].files
  {
    var r := Grouping(root, es);
    GroupingShape(root, es);
    var pre := DirPrefix(root);
    GroupPaths(root, es, r[a]);
    GroupPaths(root, es, r[b]);
    forall p | p in r[a].files ensures ComponentAt(p, |pre|) == r[a].name {
      FirstComponent(p, pre, r[a].name);
    }
    forall p | p in r[b].files ensures ComponentAt(p, |pre|) == r[b].name {
      FirstComponent(p, pre, r[b].name);
    }
  }

  /** Files directly inside the root are in no group. */
  lemma RootFilesUngrouped(root: string, es: seq<Entry>, i: nat, g: Group)
    requires root != [] && WellFormed(es) && i < |es| && es[i].File?
    requires g in Grouping(root, es)
    ensures Join(root, es[i].name) !in g.files
  {
    GroupPaths(root, es, g);
    var pre := DirPrefix(root);
    assert Join(root, es[i].name) == pre + es[i].name;
    NotBelow(pre, es[i].name, g.name);
  }

  lemma BelowRoot(root: string, d: Entry, p: string)
    requires root != [] && d.Dir? && IsName(d.name) && WellFormed(d.entries)
    requires p in SubtreeFiles(Join(root, d.name), d.entries)
    ensures StartsWith(p, DirPrefix(root) + d.name + "/")
  {
    var top := Join(root, d.name);
    assert top == DirPrefix(root) + d.name;
    SubtreeFilesBelow(top, d.entries, p);
  }

  lemma NotBelow(pre: string, f: string, g: string)
    requires '/' !in f
    ensures !StartsWith(pre + f, pre + g + "/")
  {
    if |pre| + |g| < |pre + f| {
      assert (pre + f)[|pre| + |g|] == f[|g|];
      assert (pre + g + "/")[|pre| + |g|] == '/';
    }
  }
}
