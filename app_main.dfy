/** The parts of the main window (app/main.py) that decide what the user
    can run: the file types found under the chosen folder and the
    check boxes offered for them, the selection and path check done when
    Start is pressed, and the enabled state of the Start and Stop buttons.
    Widgets are reduced to the values the window reads back from them. */
module AppMain {
  import opened Wrappers
  import opened PyStr
  import opened Disk
  import opened Seqs
  import Utils
  import Progress

  // ---------------------------------------------------------------------------
  // File types and their labels

  /** `os.path.splitext(name)[1].lower()`: the type key of a file name,
      empty when the name has no extension. Only ASCII letters are
      lower-cased (see `Lower`). */
  function TypeKey(name: string): (r: string)
    ensures |r| <= |name|
    ensures forall j :: 0 <= j < |r| ==> !('A' <= r[j] <= 'Z')
  {
    LowerIdempotent(Splitext(name).1);
    Lower(Splitext(name).1)
  }

  lemma LowerKeepsSeparators(c: char)
    ensures LowerChar(c) == '.' <==> c == '.'
    ensures LowerChar(c) == '/' <==> c == '/'
  {
  }

  /** A type key is empty exactly when `splitext` finds no extension;
      otherwise it is the last '.' of the name and everything after it,
      lower-cased: one leading '.', no other '.' or '/', and no upper-case
      ASCII letter. */
  lemma TypeKeyShape(name: string)
    ensures TypeKey(name) == [] <==> forall i :: !IsExtSplit(name, i)
    ensures var k := TypeKey(name);
      k != [] ==>
        && k == Lower(name[RFind(name, '.')..])
        && k[0] == '.'
        && (forall j :: 0 < j < |k| ==> k[j] != '.' && k[j] != '/')
        && (forall j :: 0 <= j < |k| ==> !('A' <= k[j] <= 'Z'))
  {
    SplitextCut(name);
    var k := TypeKey(name);
    if k != [] {
      var i := |Splitext(name).0|;
      ExtSplitIsLastDot(name, i);
      assert Splitext(name).1 == name[i..];
      forall j | 0 <= j < |k| ensures k[j] == LowerChar(name[i + j]) {
      }
      forall j | 0 < j < |k| ensures k[j] != '.' && k[j] != '/' {
        LowerKeepsSeparators(name[i + j]);
      }
      LowerIdempotent(Splitext(name).1);
    }
  }

  /** `file_type.lstrip('.').upper()`: the text of a type's check box
      (ASCII letters upper-cased, see `Upper`). */
  function Label(key: string): (r: string)
    ensures forall j :: 0 <= j < |r| ==> !('a' <= r[j] <= 'z')
  {
    Upper(LStrip(key, '.'))
  }

  /** The type of an ASCII file name can be read back from its label: it
      is '.' followed by the label lower-cased. So different types of ASCII
      names never share a label. (Under Python's full Unicode case mapping
      they can: ".ß" and ".ss" are both labelled "SS".) */
  lemma LabelRecoversKey(name: string)
    requires IsAscii(name) && TypeKey(name) != []
    ensures "." + Lower(Label(TypeKey(name))) == TypeKey(name)
  {
    TypeKeyShape(name);
    KeyFromLabel(TypeKey(name));
  }

  lemma KeyFromLabel(k: string)
    requires k != [] && k[0] == '.'
    requires forall j :: 0 < j < |k| ==> k[j] != '.'
    requires forall j :: 0 <= j < |k| ==> !('A' <= k[j] <= 'Z')
    ensures "." + Lower(Label(k)) == k
  {
    var rest := k[1..];
    assert LStrip(k, '.') == LStrip(rest, '.');
    assert rest == [] || rest[0] == k[1];
    assert LStrip(rest, '.') == rest;
    assert Lower(Upper(rest)) == rest;
    assert k == "." + rest;
  }

  lemma LabelsDistinct(a: string, b: string)
    requires IsAscii(a) && IsAscii(b) && TypeKey(a) != [] && TypeKey(b) != []
    requires Label(TypeKey(a)) == Label(TypeKey(b))
    ensures TypeKey(a) == TypeKey(b)
  {
    LabelRecoversKey(a);
    LabelRecoversKey(b);
  }

  // ---------------------------------------------------------------------------
  // Scanning the folder

  /** What `os.walk(folder_path)` yields: nothing when the folder is
      missing or not a directory, since `os.walk` drops that error. */
  function FolderWalk(folder: string, state: Utils.RootState): seq<Utils.WalkStep> {
    if state.Listing? then Utils.OsWalk(folder, state.entries) else []
  }

  /** Every file name the walk yields, step after step. */
  function WalkFiles(steps: seq<Utils.WalkStep>): seq<string> {
    if steps == [] then [] else WalkFiles(steps[..|steps| - 1]) + steps[|steps| - 1].filenames
  }

  /** The non-empty values of `key` on `names`. */
  function KeysOf(names: seq<string>, key: string -> string): set<string> {
    set n | n in names && key(n) != [] :: key(n)
  }

  /** The non-empty type keys of `names`. */
  function TypesOf(names: seq<string>): set<string> {
    KeysOf(names, TypeKey)
  }

  /** The set `file_types_found` for a folder. */
  function FolderTypes(folder: string, state: Utils.RootState): set<string> {
    TypesOf(WalkFiles(FolderWalk(folder, state)))
  }

  lemma KeysOfSnoc(names: seq<string>, n: string, key: string -> string)
    ensures KeysOf(names + [n], key) == KeysOf(names, key) + (if key(n) != [] then {key(n)} else {})
  {
    var l, r := KeysOf(names + [n], key), KeysOf(names, key) + (if key(n) != [] then {key(n)} else {});
    forall t | t in l ensures t in r {
      var m :| m in names + [n] && key(m) != [] && key(m) == t;
      if m != n {
        assert m in names;
      }
    }
  }

  /** The found types are exactly the extensions of the files found, each
      starting with '.'; when the names are ASCII, each type is '.' and its
      label lower-cased. */
  lemma FoundTypesShape(names: seq<string>, t: string)
    ensures t in TypesOf(names) <==> exists k :: 0 <= k < |names| && TypeKey(names[k]) != [] && TypeKey(names[k]) == t
    ensures t in TypesOf(names) ==> t[0] == '.'
    ensures t in TypesOf(names) && (forall k :: 0 <= k < |names| ==> IsAscii(names[k])) ==>
              "." + Lower(Label(t)) == t
  {
    if t in TypesOf(names) {
      var n :| n in names && TypeKey(n) != [] && TypeKey(n) == t;
      var k :| 0 <= k < |names| && names[k] == n;
      TypeKeyShape(n);
      if forall k :: 0 <= k < |names| ==> IsAscii(names[k]) {
        LabelRecoversKey(n);
      }
    }
  }

  /** The scanning loop of `_update_file_type_checkboxes`. */
  method ScanFileTypes(steps: seq<Utils.WalkStep>) returns (found: set<string>)
    ensures found == TypesOf(WalkFiles(steps))
  {
    found := {};
    for i := 0 to |steps|
      invariant found == KeysOf(WalkFiles(steps[..i]), TypeKey)
    {
      var names := steps[i].filenames;
      ghost var before := WalkFiles(steps[..i]);
      for j := 0 to |names|
        invariant found == KeysOf(before + names[..j], TypeKey)
      {
        var ext := TypeKey(names[j]);
        if ext != [] {
          found := found + {ext};
        }
        KeysOfSnoc(before + names[..j], names[j], TypeKey);
        TakeSnoc(before, names, j);
      }
      assert steps[..i + 1][..i] == steps[..i];
      assert names[..|names|] == names;
    }
    assert steps[..|steps|] == steps;
  }

  // ---------------------------------------------------------------------------
  // `sorted(file_types_found)`

  predicate StrictlySorted(s: seq<string>) {
    forall i, j :: 0 <= i < j < |s| ==> StrLess(s[i], s[j])
  }

  lemma SortedDistinct(s: seq<string>, i: int, j: int)
    requires StrictlySorted(s) && 0 <= i < |s| && 0 <= j < |s| && i != j
    ensures s[i] != s[j]
  {
    if i < j {
      StrLessIrreflexive(s[i]);
    } else {
      StrLessIrreflexive(s[j]);
    }
  }

  /** A sequence whose elements all occur in `a` is empty when `a` is. */
  lemma SharedNonEmpty(b: seq<string>, a: seq<string>)
    requires forall x :: x in b ==> x in a
    ensures b != [] ==> a != []
  {
    if b != [] {
      var x := b[0];
      assert x in b;
    }
  }

  /** There is only one sorted sequence of a set of strings, so the order
      of the check boxes depends on nothing but the types found. */
  lemma {:induction false} SortedUnique(a: seq<string>, b: seq<string>)
    requires StrictlySorted(a) && StrictlySorted(b)
    requires forall x :: x in a <==> x in b
    ensures a == b
    decreases |a|
  {
    if a == [] {
      SharedNonEmpty(b, a);
    } else {
      assert b != [] by {
        assert a[0] in b;
      }
      assert a[0] == b[0] by {
        assert b[0] in a && a[0] in b;
        var i :| 0 <= i < |a| && a[i] == b[0];
        var j :| 0 <= j < |b| && b[j] == a[0];
        if a[0] != b[0] {
          assert i > 0 && j > 0;
          assert StrLess(a[0], b[0]) && StrLess(b[0], a[0]);
          StrLessTransitive(a[0], b[0], a[0]);
          StrLessIrreflexive(a[0]);
        }
      }
      forall x ensures x in a[1..] <==> x in b[1..] {
        if x in a[1..] {
          var i :| 1 <= i < |a| && a[i] == x;
          SortedDistinct(a, 0, i);
          assert x in b;
          var j :| 0 <= j < |b| && b[j] == x;
          assert j != 0;
          assert b[1..][j - 1] == x;
        }
        if x in b[1..] {
          var j :| 1 <= j < |b| && b[j] == x;
          SortedDistinct(b, 0, j);
          assert x in a;
          var i :| 0 <= i < |a| && a[i] == x;
          assert i != 0;
          assert a[1..][i - 1] == x;
        }
      }
      SortedUnique(a[1..], b[1..]);
      assert a == [a[0]] + a[1..] && b == [b[0]] + b[1..];
    }
  }

  /** Puts `x` into its place in a sorted sequence. */
  method Insert(keys: seq<string>, x: string) returns (r: seq<string>)
    requires StrictlySorted(keys) && x !in keys
    ensures StrictlySorted(r)
    ensures forall y :: y in r <==> y in keys || y == x
    ensures |r| == |keys| + 1
  {
    var i := 0;
    while i < |keys| && StrLess(keys[i], x)
      invariant 0 <= i <= |keys|
      invariant forall k :: 0 <= k < i ==> StrLess(keys[k], x)
    {
      i := i + 1;
    }
    if i < |keys| {
      StrLessTotal(keys[i], x);
      assert keys[i] != x;
    }
    r := keys[..i] + [x] + keys[i..];
    forall a, b | 0 <= a < b < |r| ensures StrLess(r[a], r[b]) {
      if b < i {
        assert r[a] == keys[a] && r[b] == keys[b];
      } else if b == i {
        assert r[a] == keys[a] && r[b] == x;
      } else if a == i {
        assert r[b] == keys[b - 1];
        if b - 1 > i {
          StrLessTransitive(x, keys[i], keys[b - 1]);
        }
      } else if a < i {
        assert r[a] == keys[a] && r[b] == keys[b - 1];
      } else {
        assert r[a] == keys[a - 1] && r[b] == keys[b - 1];
      }
    }
    assert keys == keys[..i] + keys[i..];
  }

  /** `sorted` applied to the set of found types. */
  method SortedTypes(found: set<string>) returns (keys: seq<string>)
    ensures StrictlySorted(keys)
    ensures forall y :: y in keys <==> y in found
    ensures |keys| == |found|
  {
    keys := [];
    var rest := found;
    while rest != {}
      invariant rest <= found
      invariant StrictlySorted(keys)
      invariant forall y :: y in keys <==> y in found && y !in rest
      invariant |keys| + |rest| == |found|
      decreases |rest|
    {
      var x :| x in rest;
      keys := Insert(keys, x);
      rest := rest - {x};
    }
  }

  // ---------------------------------------------------------------------------
  // The selection handed to the worker

  /** One QCheckBox: its text, its object name and whether it is ticked. */
  datatype Checkbox = Checkbox(text: string, objectName: string, checked: bool)

  /** `f"file_type_checkbox_{i}"`. */
  function ObjectName(i: nat): string {
    "file_type_checkbox_" + NatToString(i)
  }

  /** `[t for t, box in file_type_checkboxes.items() if box.isChecked()]`,
      where `order` is the dict's insertion order. */
  function CheckedKeys(order: seq<string>, boxes: map<string, Checkbox>): (r: seq<string>)
    ensures forall k :: k in r <==> k in order && k in boxes && boxes[k].checked
    ensures |r| <= |order|
  {
    if order == [] then []
    else
      var rest := CheckedKeys(order[1..], boxes);
      assert forall k :: k in order <==> k == order[0] || k in order[1..];
      (if order[0] in boxes && boxes[order[0]].checked then [order[0]] else []) + rest
  }

  /** The selection keeps the order of the boxes, so it is sorted when
      the boxes are. */
  lemma {:induction false} CheckedKeysSorted(order: seq<string>, boxes: map<string, Checkbox>)
    requires StrictlySorted(order)
    ensures StrictlySorted(CheckedKeys(order, boxes))
    decreases |order|
  {
    if order != [] {
      var rest := CheckedKeys(order[1..], boxes);
      CheckedKeysSorted(order[1..], boxes);
      forall k | k in rest ensures StrLess(order[0], k) {
        var j :| 0 <= j < |order[1..]| && order[1..][j] == k;
        assert order[j + 1] == k;
      }
    }
  }

  /** When every box is ticked, the selection is every key, in order. */
  lemma {:induction false} CheckedKeysAll(order: seq<string>, boxes: map<string, Checkbox>)
    requires forall k :: k in order ==> k in boxes && boxes[k].checked
    ensures CheckedKeys(order, boxes) == order
    decreases |order|
  {
    if order != [] {
      assert forall k :: k in order[1..] ==> k in order;
      CheckedKeysAll(order[1..], boxes);
      assert [order[0]] + order[1..] == order;
    }
  }

  /** The box `_update_file_type_checkboxes` creates for the i-th type. */
  function NewBox(key: string, i: nat): Checkbox {
    Checkbox(Label(key), ObjectName(i), true)
  }

  /** `b` holds a box for each of the first `n` keys, made by `box`, and
      nothing else. */
  ghost predicate BoxesFor(b: map<string, Checkbox>, keys: seq<string>, n: nat, box: (string, nat) -> Checkbox) {
    && n <= |keys|
    && (forall k :: k in b <==> k in keys[..n])
    && (forall i :: 0 <= i < n ==> keys[i] in b && b[keys[i]] == box(keys[i], i))
  }

  lemma BoxesStep(b: map<string, Checkbox>, keys: seq<string>, n: nat, box: (string, nat) -> Checkbox)
    requires BoxesFor(b, keys, n, box) && n < |keys| && StrictlySorted(keys)
    ensures BoxesFor(b[keys[n] := box(keys[n], n)], keys, n + 1, box)
  {
    TakeOneMore(keys, n);
    forall i | 0 <= i < n ensures keys[i] != keys[n] {
      SortedDistinct(keys, i, n);
    }
  }

  /** The loop that creates one box per key of `keys`, in order, into the
      emptied dict; `newBox(t, i)` is the box made for the i-th type `t`
      (`NewBox` in the window). */
  method BuildCheckboxes(keys: seq<string>, newBox: (string, nat) -> Checkbox)
    returns (order: seq<string>, boxes: map<string, Checkbox>)
    requires StrictlySorted(keys)
    ensures order == keys
    ensures BoxesFor(boxes, keys, |keys|, newBox)
    ensures forall i, j :: 0 <= i < j < |order| ==> order[i] != order[j]
  {
    order, boxes := [], map[];
    for i := 0 to |keys|
      invariant order == keys[..i]
      invariant BoxesFor(boxes, keys, i, newBox)
    {
      BoxesStep(boxes, keys, i, newBox);
      boxes := boxes[keys[i] := newBox(keys[i], i)];
      order := order + [keys[i]];
    }
    TakeAll(keys);
    SortedKeysDistinct(keys);
  }

  lemma SortedKeysDistinct(keys: seq<string>)
    requires StrictlySorted(keys)
    ensures forall i, j :: 0 <= i < j < |keys| ==> keys[i] != keys[j]
  {
    forall i, j | 0 <= i < j < |keys| ensures keys[i] != keys[j] {
      SortedDistinct(keys, i, j);
    }
  }

  // ---------------------------------------------------------------------------
  // The window

  /** The arguments the worker thread is started with: the module and
      function to run, the folder and the selected types. */
  datatype WorkerArgs = WorkerArgs(modulePath: string, funcName: string, root: string, types: seq<string>)

  const BigmanModule := "converter/bigman.py"

  /** `Path(p).exists()`: a file or a folder stands at `p`. On a
      well-formed disk the folders above it then exist too. */
  predicate Exists(d: Disk, p: string)
    ensures Exists(d, p) && WellFormed(d) ==> AncestorsIn(d, p)
  {
    p in d.dirs || p in d.files
  }

  /** How creating and starting the worker thread ends: normally, or with
      the exception that `WorkerThread(...)` or its `start()` raises, which
      `on_start` catches and reports in the status line. */
  datatype Launch = Launched | CreateFailed(message: string) | StartFailed(message: string)

  /** The dict of check boxes is consistent: each key once, and its boxes
      are the keys. */
  ghost predicate Consistent(order: seq<string>, boxes: map<string, Checkbox>) {
    && (forall i, j :: 0 <= i < j < |order| ==> order[i] != order[j])
    && (forall k :: k in boxes <==> k in order)
  }

  /** The boxes built for the sorted types found form a consistent dict
      whose keys are those types, in sorted order. */
  lemma BuiltBoxes(found: set<string>, keys: seq<string>, order: seq<string>, boxes: map<string, Checkbox>)
    requires StrictlySorted(keys) && (forall y :: y in keys <==> y in found)
    requires order == keys && BoxesFor(boxes, keys, |keys|, NewBox)
    ensures Consistent(order, boxes)
    ensures StrictlySorted(order) && (forall k :: k in order <==> k in found)
    ensures BoxesFor(boxes, order, |order|, NewBox)
  {
    TakeAll(keys);
    SortedKeysDistinct(keys);
  }

  /** The scan of `folder_path` in `_update_file_type_checkboxes`. */
  method ScanFolderTypes(folder: string, state: Utils.RootState) returns (found: set<string>)
    ensures found == FolderTypes(folder, state)
  {
    found := ScanFileTypes(FolderWalk(folder, state));
  }

  /** `sorted(file_types)` and one new box per type, in that order. */
  method CheckboxesFor(found: set<string>) returns (order: seq<string>, boxes: map<string, Checkbox>)
    ensures Consistent(order, boxes)
    ensures StrictlySorted(order) && (forall k :: k in order <==> k in found)
    ensures BoxesFor(boxes, order, |order|, NewBox)
  {
    var keys := SortedTypes(found);
    order, boxes := BuildCheckboxes(keys, NewBox);
    BuiltBoxes(found, keys, order, boxes);
  }

  /** Every box is ticked when the window has just built them. */
  lemma FreshBoxesChecked(order: seq<string>, boxes: map<string, Checkbox>)
    requires BoxesFor(boxes, order, |order|, NewBox)
    ensures CheckedKeys(order, boxes) == order
  {
    forall k | k in order ensures k in boxes && boxes[k].checked {
      var i :| 0 <= i < |order| && order[i] == k;
      assert boxes[order[i]] == NewBox(order[i], i);
    }
    CheckedKeysAll(order, boxes);
  }

  class MainWindow {
    /** `directory_field.text()` */
    var directoryField: string
    /** `status_label.text()` */
    var status: string
    /** The keys of `file_type_checkboxes` in insertion order, and the dict. */
    var order: seq<string>
    var boxes: map<string, Checkbox>
    /** How many "No files found in directory" labels have been added to
        the layout; none is ever removed. */
    var noFilesLabels: nat
    /** The `start_button_enabled` attribute. */
    var startButtonEnabled: bool
    /** `start_button.isEnabled()` and `stop_button.isEnabled()`. */
    var startEnabled: bool
    var stopEnabled: bool
    /** The worker thread last created, by its arguments. */
    var worker: Option<WorkerArgs>

    ghost predicate Valid()
      reads this
    {
      Consistent(order, boxes)
    }

    /** The state the window is built in. */
    constructor ()
      ensures directoryField == [] && status == "Ready to start"
      ensures order == [] && boxes == map[] && noFilesLabels == 0
      ensures !startButtonEnabled && !startEnabled && !stopEnabled
      ensures worker == None
      ensures Valid()
    {
      directoryField := [];
      status := "Ready to start";
      order := [];
      boxes := map[];
      noFilesLabels := 0;
      startButtonEnabled := false;
      startEnabled := false;
      stopEnabled := false;
      worker := None;
    }

    /** `_update_file_type_checkboxes(folder_path)`: one ticked box per
        type found, labelled by the type and created in sorted order;
        the "no files" label when there is none. */
    method UpdateFileTypeCheckboxes(folder: string, state: Utils.RootState)
      requires Valid()
      modifies this
      ensures Valid()
      ensures StrictlySorted(order)
      ensures forall k :: k in order <==> k in FolderTypes(folder, state)
      ensures BoxesFor(boxes, order, |order|, NewBox)
      ensures noFilesLabels == old(noFilesLabels) + (if FolderTypes(folder, state) == {} then 1 else 0)
      ensures directoryField == old(directoryField) && status == old(status)
      ensures startButtonEnabled == old(startButtonEnabled)
      ensures startEnabled == old(startEnabled) && stopEnabled == old(stopEnabled)
      ensures worker == old(worker)
    {
      var found := ScanFolderTypes(folder, state);
      var o: seq<string>, b: map<string, Checkbox> := [], map[];
      if found != {} {
        o, b := CheckboxesFor(found);
      }
      order, boxes := o, b;
      if found == {} {
        noFilesLabels := noFilesLabels + 1;
      }
    }

    /** `_update_start_button_state()`. */
    method UpdateStartButtonState()
      requires Valid()
      modifies this
      ensures Valid()
      ensures startEnabled == startButtonEnabled == old(startButtonEnabled)
      ensures stopEnabled == old(stopEnabled)
      ensures directoryField == old(directoryField) && status == old(status)
      ensures order == old(order) && boxes == old(boxes) && noFilesLabels == old(noFilesLabels)
      ensures worker == old(worker)
    {
      if startButtonEnabled {
        startEnabled := true;
      } else {
        startEnabled := false;
      }
    }

    /** `on_select_folder()` once the dialog has returned `folder` (empty
        when it was cancelled); `state` is what the folder is on disk. */
    method OnSelectFolder(folder: string, state: Utils.RootState)
      requires Valid()
      modifies this
      ensures Valid()
      ensures folder != [] ==>
        && status == "Selected: " + folder
        && directoryField == folder
        && startButtonEnabled && startEnabled
        && StrictlySorted(order)
        && (forall k :: k in order <==> k in FolderTypes(folder, state))
        && BoxesFor(boxes, order, |order|, NewBox)
        && CheckedKeys(order, boxes) == order
        && noFilesLabels == old(noFilesLabels) + (if FolderTypes(folder, state) == {} then 1 else 0)
      ensures folder == [] ==>
        && status == "No folder selected"
        && directoryField == []
        && startButtonEnabled == old(startButtonEnabled) && startEnabled == old(startEnabled)
        && order == old(order) && boxes == old(boxes) && noFilesLabels == old(noFilesLabels)
      ensures stopEnabled == old(stopEnabled) && worker == old(worker)
    {
      if folder != [] {
        status := "Selected: " + folder;
        directoryField := folder;
        startButtonEnabled := true;
        UpdateStartButtonState();
        UpdateFileTypeCheckboxes(folder, state);
        FreshBoxesChecked(order, boxes);
      } else {
        status := "No folder selected";
        directoryField := [];
      }
    }

    /** `_update_button_states(is_processing)`: Start is enabled exactly
        when Stop is not, and processing clears `start_button_enabled`. */
    method UpdateButtonStates(isProcessing: bool)
      requires Valid()
      modifies this
      ensures Valid()
      ensures startEnabled == !isProcessing && stopEnabled == isProcessing
      ensures startButtonEnabled == (old(startButtonEnabled) && !isProcessing)
      ensures directoryField == old(directoryField) && status == old(status)
      ensures order == old(order) && boxes == old(boxes) && noFilesLabels == old(noFilesLabels)
      ensures worker == old(worker)
    {
      startEnabled := !isProcessing;
      stopEnabled := isProcessing;
      if isProcessing {
        startButtonEnabled := false;
      }
    }

    /** `on_start()` on the disk `d`: with a non-empty path that exists, the
        progress counters are reset and the worker is created with the
        ticked types, the buttons switch to processing and the worker is
        started; an exception on the way is reported in the status line.
        Without such a path only the status text changes. */
    method OnStart(d: Disk, counters: Progress.Counters, launch: Launch) returns (proceeded: bool)
      requires Valid() && counters.Valid()
      modifies this, counters
      ensures Valid() && counters.Valid()
      ensures proceeded <==> directoryField != [] && Exists(d, directoryField)
      ensures proceeded ==>
        && counters.value1 == 0 && counters.value2 == 0
        && status == (if launch.Launched? then "Processing started..."
                      else "Error starting worker: " + launch.message)
      ensures proceeded && !launch.CreateFailed? ==>
        && worker == Some(WorkerArgs(BigmanModule, "main", directoryField, CheckedKeys(order, boxes)))
        && !startEnabled && stopEnabled && !startButtonEnabled
      ensures !proceeded ==>
        && status == "No valid directory selected"
        && counters.value1 == old(counters.value1) && counters.value2 == old(counters.value2)
      ensures !proceeded || launch.CreateFailed? ==>
        && worker == old(worker)
        && startEnabled == old(startEnabled) && stopEnabled == old(stopEnabled)
        && startButtonEnabled == old(startButtonEnabled)
      ensures directoryField == old(directoryField)
      ensures order == old(order) && boxes == old(boxes) && noFilesLabels == old(noFilesLabels)
    {
      var path := directoryField;
      if path != [] && Exists(d, path) {
        status := "Processing started...";
        var _ := counters.SetProgress(0.0);
        var _ := counters.SetProgress2(0.0);
        proceeded := true;
        if launch.CreateFailed? {
          status := "Error starting worker: " + launch.message;
          return;
        }
        var selected := CheckedKeys(order, boxes);
        worker := Some(WorkerArgs(BigmanModule, "main", path, selected));
        UpdateButtonStates(true);
        if launch.StartFailed? {
          status := "Error starting worker: " + launch.message;
        }
      } else {
        status := "No valid directory selected";
        proceeded := false;
      }
    }

    /** `_on_finished()`: the buttons return to idle and the status reports
        the worker's exception, if any. */
    method OnFinished(error: Option<string>)
      requires Valid()
      modifies this
      ensures Valid()
      ensures startEnabled && !stopEnabled && startButtonEnabled == old(startButtonEnabled)
      ensures status == (if error.Some? then "Error: " + error.value else "Processing completed!")
      ensures directoryField == old(directoryField) && worker == old(worker)
      ensures order == old(order) && boxes == old(boxes) && noFilesLabels == old(noFilesLabels)
    {
      UpdateButtonStates(false);
      if error.Some? {
        status := "Error: " + error.value;
      } else {
        status := "Processing completed!";
      }
    }
  }

  /** Right after a folder is chosen, pressing Start hands the worker every
      type found under it, in sorted order. */
  lemma SelectionAfterScan(order: seq<string>, boxes: map<string, Checkbox>, folder: string, state: Utils.RootState, sorted: seq<string>)
    requires StrictlySorted(order) && (forall k :: k in order <==> k in FolderTypes(folder, state))
    requires forall k :: k in order ==> k in boxes && boxes[k].checked
    requires StrictlySorted(sorted) && (forall k :: k in sorted <==> k in FolderTypes(folder, state))
    ensures CheckedKeys(order, boxes) == sorted
  {
    CheckedKeysAll(order, boxes);
    SortedUnique(order, sorted);
  }
}
