/** The file-list panel of the ImGui user interface
    (src/imgui/FileListWidget.cc): a list of files with a given extension,
    rescanned when its menu opens, sorted lazily by name or by time, with a
    delete action behind a confirmation dialog. The file system walk,
    modification times and ImGui interaction are inputs: the files of each
    search path, the table's sort specification and what the user clicked
    or answered in this frame. */
module FileList {

  datatype Option<T> = None | Some(value: T)

  /** FileListWidget::Entry: the full path, the name shown (without the
      extension) and the modification time. */
  datatype Entry = Entry(fullName: string, displayName: string, ftime: int)

  /** One file as the directory walk reports it: its full path, its file
      name and its modification time. */
  datatype WalkedFile = WalkedFile(fullName: string, name: string, ftime: int)

  /** The delete action: the default one unlinks the entry's file; a user of
      the widget may also have none. */
  datatype DeleteAction = NoDelete | Unlink

  /** The state of the confirmation dialog: closed, or open with a prompt
      and the entry the delete closure captured by value. */
  datatype Confirm = Idle | Pending(prompt: string, entry: Entry)

  /** What the user does with an open confirmation dialog in a frame. */
  datatype Answer = NoAnswer | Confirmed | Cancelled

  /** What drawTable shows: the "no files" text, or the rows in order. */
  datatype View = NoFiles(message: string) | Rows(rows: seq<Entry>)

  // ---------------------------------------------------------------------
  // The directory scan

  predicate EndsWith(s: string, suffix: string)
  {
    |suffix| <= |s| && s[|s| - |suffix|..] == suffix
  }

  /** The entry for a walked file whose name ends with ext: the suffix is
      removed from the name, the full name is kept. */
  function ToEntry(f: WalkedFile, ext: string): (e: Entry)
    requires EndsWith(f.name, ext)
    ensures e.fullName == f.fullName && e.ftime == f.ftime
    ensures e.displayName + ext == f.name
  {
    Entry(f.fullName, f.name[..|f.name| - |ext|], f.ftime)
  }

  /** The entries the walk over one search path adds, in walk order. */
  function ScanRoot(files: seq<WalkedFile>, ext: string): (r: seq<Entry>)
    ensures |r| <= |files|
  {
    if files == [] then []
    else
      var f := files[|files| - 1];
      ScanRoot(files[..|files| - 1], ext) + (if EndsWith(f.name, ext) then [ToEntry(f, ext)] else [])
  }

  /** The entries scanDirectory collects: search paths in order, and the
      walk order within each path. */
  function Scan(roots: seq<seq<WalkedFile>>, ext: string): seq<Entry>
  {
    if roots == [] then [] else Scan(roots[..|roots| - 1], ext) + ScanRoot(roots[|roots| - 1], ext)
  }

  /** An entry comes from a walked file of the path iff that file ends with
      the extension and the entry is that file with the suffix removed. */
  lemma {:induction false} ScanRootMembers(files: seq<WalkedFile>, ext: string, e: Entry)
    ensures e in ScanRoot(files, ext) <==>
      exists f :: f in files && EndsWith(f.name, ext) && e == ToEntry(f, ext)
    decreases |files|
  {
    if files != [] {
      var init, f := files[..|files| - 1], files[|files| - 1];
      assert files == init + [f];
      ScanRootMembers(init, ext, e);
      if e in ScanRoot(init, ext) {
        var g :| g in init && EndsWith(g.name, ext) && e == ToEntry(g, ext);
        assert g in files;
      }
    }
  }

  /** The scan of several search paths is the scan of each, concatenated in
      path order. */
  lemma {:induction false} ScanConcat(a: seq<seq<WalkedFile>>, b: seq<seq<WalkedFile>>, ext: string)
    ensures Scan(a + b, ext) == Scan(a, ext) + Scan(b, ext)
    decreases |b|
  {
    if b != [] {
      var init := b[..|b| - 1];
      assert (a + b)[..|a + b| - 1] == a + init;
      ScanConcat(a, init, ext);
    } else {
      assert a + b == a;
    }
  }

  /** An entry is scanned iff some file of some search path ends with the
      extension and gives that entry. */
  lemma {:induction false} ScanMembers(roots: seq<seq<WalkedFile>>, ext: string, e: Entry)
    ensures e in Scan(roots, ext) <==>
      exists r, f :: r in roots && f in r && EndsWith(f.name, ext) && e == ToEntry(f, ext)
    decreases |roots|
  {
    if roots != [] {
      var init, last := roots[..|roots| - 1], roots[|roots| - 1];
      assert roots == init + [last];
      ScanMembers(init, ext, e);
      ScanRootMembers(last, ext, e);
      if e in Scan(init, ext) {
        var r, f :| r in init && f in r && EndsWith(f.name, ext) && e == ToEntry(f, ext);
        assert r in roots;
      }
      if e in ScanRoot(last, ext) {
        var f :| f in last && EndsWith(f.name, ext) && e == ToEntry(f, ext);
        assert last in roots;
      }
    }
  }

  /** The listing of a search path after unlink(path). */
  function RemoveFile(files: seq<WalkedFile>, path: string): (r: seq<WalkedFile>)
    ensures forall f :: f in r <==> f in files && f.fullName != path
  {
    if files == [] then []
    else
      var f := files[|files| - 1];
      RemoveFile(files[..|files| - 1], path) + (if f.fullName == path then [] else [f])
  }

  function Unlinked(roots: seq<seq<WalkedFile>>, path: string): seq<seq<WalkedFile>>
  {
    seq(|roots|, i requires 0 <= i < |roots| => RemoveFile(roots[i], path))
  }

  /** After the default delete action and the rescan, the deleted file is
      gone from the list and every other entry is still there. */
  lemma UnlinkRescan(roots: seq<seq<WalkedFile>>, ext: string, path: string, e: Entry)
    ensures e in Scan(Unlinked(roots, path), ext) <==> e in Scan(roots, ext) && e.fullName != path
  {
    var after := Unlinked(roots, path);
    ScanMembers(roots, ext, e);
    ScanMembers(after, ext, e);
    if e in Scan(after, ext) {
      var r, f :| r in after && f in r && EndsWith(f.name, ext) && e == ToEntry(f, ext);
      var i :| 0 <= i < |after| && after[i] == r;
      assert roots[i] in roots && f in roots[i];
    }
    if e in Scan(roots, ext) && e.fullName != path {
      var r, f :| r in roots && f in r && EndsWith(f.name, ext) && e == ToEntry(f, ext);
      var i :| 0 <= i < |roots| && roots[i] == r;
      assert after[i] in after && f in after[i];
    }
  }

  // ---------------------------------------------------------------------
  // Sorting

  /** Lexicographic order of strings by character code. */
  predicate StrLe(a: string, b: string)
  {
    a == [] || (b != [] && (a[0] < b[0] || (a[0] == b[0] && StrLe(a[1..], b[1..]))))
  }

  lemma {:induction false} StrLeTotal(a: string, b: string)
    ensures StrLe(a, b) || StrLe(b, a)
  {
    if a != [] && b != [] && a[0] == b[0] {
      StrLeTotal(a[1..], b[1..]);
    }
  }

  lemma {:induction false} StrLeTrans(a: string, b: string, c: string)
    requires StrLe(a, b) && StrLe(b, c)
    ensures StrLe(a, c)
  {
    if a != [] && b != [] && c != [] && a[0] == b[0] == c[0] {
      StrLeTrans(a[1..], b[1..], c[1..]);
    }
  }

  /** a may come before b in the table sorted on column (0: name, 1: time)
      in the given direction. */
  predicate InOrder(a: Entry, b: Entry, column: int, descending: bool)
  {
    var (x, y) := if descending then (b, a) else (a, b);
    if column == 0 then StrLe(x.displayName, y.displayName) else x.ftime <= y.ftime
  }

  lemma InOrderTotal(a: Entry, b: Entry, column: int, descending: bool)
    ensures InOrder(a, b, column, descending) || InOrder(b, a, column, descending)
  {
    StrLeTotal(a.displayName, b.displayName);
  }

  lemma InOrderTrans(a: Entry, b: Entry, c: Entry, column: int, descending: bool)
    requires InOrder(a, b, column, descending) && InOrder(b, c, column, descending)
    ensures InOrder(a, c, column, descending)
  {
    if column == 0 {
      if descending {
        StrLeTrans(c.displayName, b.displayName, a.displayName);
      } else {
        StrLeTrans(a.displayName, b.displayName, c.displayName);
      }
    }
  }

  ghost predicate Sorted(s: seq<Entry>, column: int, descending: bool)
  {
    forall i, j :: 0 <= i < j < |s| ==> InOrder(s[i], s[j], column, descending)
  }

  /** x inserted into a list before the first element it may precede. */
  function Insert(x: Entry, s: seq<Entry>, column: int, descending: bool): (r: seq<Entry>)
    ensures multiset(r) == multiset(s) + multiset{x}
  {
    if s == [] then [x]
    else if InOrder(x, s[0], column, descending) then [x] + s
    else
      assert s == [s[0]] + s[1..];
      [s[0]] + Insert(x, s[1..], column, descending)
  }

  /** The table rows sorted on column in the given direction, by insertion;
      entries with equal keys keep their input order. */
  function SortBy(s: seq<Entry>, column: int, descending: bool): seq<Entry>
  {
    if s == [] then [] else Insert(s[0], SortBy(s[1..], column, descending), column, descending)
  }

  lemma {:induction false} InsertSorted(x: Entry, s: seq<Entry>, column: int, descending: bool)
    requires Sorted(s, column, descending)
    ensures Sorted(Insert(x, s, column, descending), column, descending)
    decreases |s|
  {
    var r := Insert(x, s, column, descending);
    if s == [] {
    } else if InOrder(x, s[0], column, descending) {
      forall j | 1 <= j < |r|
        ensures InOrder(r[0], r[j], column, descending)
      {
        if j > 1 {
          InOrderTrans(x, s[0], s[j - 1], column, descending);
        }
      }
    } else {
      var t := Insert(x, s[1..], column, descending);
      InsertSorted(x, s[1..], column, descending);
      InsertAfterHead(x, s, column, descending);
      assert r == [s[0]] + t;
      forall i, j | 0 <= i < j < |r|
        ensures InOrder(r[i], r[j], column, descending)
      {
        if i > 0 {
          assert r[i] == t[i - 1] && r[j] == t[j - 1];
        }
      }
    }
  }

  /** When x goes after the head of a sorted list, the head may precede
      everything in the rest with x inserted. */
  lemma InsertAfterHead(x: Entry, s: seq<Entry>, column: int, descending: bool)
    requires Sorted(s, column, descending) && s != [] && !InOrder(x, s[0], column, descending)
    ensures forall j :: 0 <= j < |Insert(x, s[1..], column, descending)| ==>
      InOrder(s[0], Insert(x, s[1..], column, descending)[j], column, descending)
  {
    var t := Insert(x, s[1..], column, descending);
    InOrderTotal(x, s[0], column, descending);
    forall j | 0 <= j < |t|
      ensures InOrder(s[0], t[j], column, descending)
    {
      assert t[j] in multiset(t);
      if t[j] != x {
        assert t[j] in multiset(s[1..]);
        var k :| 0 <= k < |s[1..]| && s[1..][k] == t[j];
        assert s[k + 1] == t[j];
      }
    }
  }

  /** What sortUpDown_String / sortUpDown_T leave in entries: the same
      entries, ordered by the chosen column and direction. */
  lemma {:induction false} SortBySorted(s: seq<Entry>, column: int, descending: bool)
    ensures Sorted(SortBy(s, column, descending), column, descending)
    decreases |s|
  {
    if s != [] {
      SortBySorted(s[1..], column, descending);
      InsertSorted(s[0], SortBy(s[1..], column, descending), column, descending);
    }
  }

  lemma {:induction false} SortByPermutes(s: seq<Entry>, column: int, descending: bool)
    ensures multiset(SortBy(s, column, descending)) == multiset(s)
    decreases |s|
  {
    if s != [] {
      SortByPermutes(s[1..], column, descending);
      assert s == [s[0]] + s[1..];
    }
  }

  /** Two entries have the same key on column. */
  predicate SameKey(a: Entry, b: Entry, column: int)
  {
    if column == 0 then a.displayName == b.displayName else a.ftime == b.ftime
  }

  /** No two entries of m share a key on column, and none occurs twice. */
  ghost predicate KeysDistinct(m: multiset<Entry>, column: int)
  {
    (forall x :: x in m ==> m[x] == 1) &&
    (forall x, y :: x in m && y in m && SameKey(x, y, column) ==> x == y)
  }

  lemma {:induction false} StrLeAntisym(a: string, b: string)
    requires StrLe(a, b) && StrLe(b, a)
    ensures a == b
  {
    if a != [] && b != [] {
      StrLeAntisym(a[1..], b[1..]);
      assert a == [a[0]] + a[1..] && b == [b[0]] + b[1..];
    }
  }

  /** Entries that may precede each other both ways have the same key. */
  lemma InOrderAntisym(a: Entry, b: Entry, column: int, descending: bool)
    requires InOrder(a, b, column, descending) && InOrder(b, a, column, descending)
    ensures SameKey(a, b, column)
  {
    if column == 0 {
      StrLeAntisym(a.displayName, b.displayName);
    }
  }

  /** With distinct keys, a list is determined by its entries once it is
      ordered: two ordered permutations of each other are equal. */
  lemma {:induction false} SortedUnique(a: seq<Entry>, b: seq<Entry>, column: int, descending: bool)
    requires Sorted(a, column, descending) && Sorted(b, column, descending)
    requires multiset(a) == multiset(b) && KeysDistinct(multiset(a), column)
    ensures a == b
    decreases |a|
  {
    if a != [] {
      assert |b| == |multiset(b)| == |a|;
      assert a[0] in multiset(b) && b[0] in multiset(a);
      var k :| 0 <= k < |b| && b[k] == a[0];
      var j :| 0 <= j < |a| && a[j] == b[0];
      if j > 0 {
        InOrderTotal(a[0], b[0], column, descending);
      }
      if k > 0 {
        InOrderTotal(a[0], b[0], column, descending);
      }
      if a[0] != b[0] {
        assert InOrder(a[0], a[j], column, descending) && InOrder(b[0], b[k], column, descending);
        InOrderAntisym(a[0], b[0], column, descending);
        assert false;
      }
      assert a == [a[0]] + a[1..] && b == [b[0]] + b[1..];
      assert multiset(a[1..]) == multiset(a) - multiset{a[0]} by {
        assert multiset(a) == multiset{a[0]} + multiset(a[1..]);
      }
      assert multiset(b[1..]) == multiset(b) - multiset{b[0]} by {
        assert multiset(b) == multiset{b[0]} + multiset(b[1..]);
      }
      DistinctRest(multiset(a), multiset(a[1..]), column);
      SortedTail(a, column, descending);
      SortedTail(b, column, descending);
      SortedUnique(a[1..], b[1..], column, descending);
    }
  }

  lemma DistinctRest(m: multiset<Entry>, r: multiset<Entry>, column: int)
    requires KeysDistinct(m, column) && r <= m
    ensures KeysDistinct(r, column)
  {
    forall x | x in r
      ensures r[x] == 1
    {
      assert x in m;
    }
  }

  lemma SortedTail(s: seq<Entry>, column: int, descending: bool)
    requires Sorted(s, column, descending) && s != []
    ensures Sorted(s[1..], column, descending)
  {
    forall i, j | 0 <= i < j < |s[1..]|
      ensures InOrder(s[1..][i], s[1..][j], column, descending)
    {
      assert s[1..][i] == s[i + 1] && s[1..][j] == s[j + 1];
    }
  }

  /** The list in the opposite order. */
  function Reverse(s: seq<Entry>): (r: seq<Entry>)
    ensures |r| == |s| && multiset(r) == multiset(s)
    ensures forall i :: 0 <= i < |s| ==> r[i] == s[|s| - 1 - i]
  {
    if s == [] then []
    else
      assert s == [s[0]] + s[1..];
      Reverse(s[1..]) + [s[0]]
  }

  /** Reversing a list ordered one way orders it the other way. */
  lemma ReverseSorted(s: seq<Entry>, column: int, descending: bool)
    requires Sorted(s, column, descending)
    ensures Sorted(Reverse(s), column, !descending)
  {
    var r := Reverse(s);
    forall i, j | 0 <= i < j < |r|
      ensures InOrder(r[i], r[j], column, !descending)
    {
      assert InOrder(s[|s| - 1 - j], s[|s| - 1 - i], column, descending);
    }
  }

  /** Sorting on a column without equal keys in the two directions gives
      exact reversals of each other. */
  lemma SortDirections(s: seq<Entry>, column: int)
    requires KeysDistinct(multiset(s), column)
    ensures SortBy(s, column, true) == Reverse(SortBy(s, column, false))
    ensures SortBy(s, column, false) == Reverse(SortBy(s, column, true))
  {
    var up, down := SortBy(s, column, false), SortBy(s, column, true);
    SortBySorted(s, column, false);
    SortBySorted(s, column, true);
    SortByPermutes(s, column, false);
    SortByPermutes(s, column, true);
    ReverseSorted(up, column, false);
    ReverseSorted(down, column, true);
    SortedUnique(down, Reverse(up), column, true);
    SortedUnique(up, Reverse(down), column, false);
  }

  /** An ordered list is its own sort: with ties kept in input order,
      resorting leaves it as it is. */
  lemma {:induction false} SortedFixed(s: seq<Entry>, column: int, descending: bool)
    requires Sorted(s, column, descending)
    ensures SortBy(s, column, descending) == s
    decreases |s|
  {
    if s != [] {
      SortedTail(s, column, descending);
      SortedFixed(s[1..], column, descending);
      if |s| > 1 {
        assert InOrder(s[0], s[1..][0], column, descending);
      }
      assert s == [s[0]] + s[1..];
    }
  }

  /** Resorting twice in succession with the same specification gives the
      same order as sorting once. */
  lemma SortIdempotent(s: seq<Entry>, column: int, descending: bool)
    ensures SortBy(SortBy(s, column, descending), column, descending) == SortBy(s, column, descending)
  {
    SortBySorted(s, column, descending);
    SortedFixed(SortBy(s, column, descending), column, descending);
  }

  // ---------------------------------------------------------------------
  // The widget

  /** The strings the widget shows. */
  function NoFilesMessage(fileType: string): string
  {
    "No " + fileType + " files found"
  }

  function DeletePrompt(fileType: string, displayName: string): string
  {
    "Delete " + fileType + " file '" + displayName + "'?"
  }

  /** The rows drawTable shows: resorted when the sort specification is
      dirty or a scan asked for it. */
  function Resorted(entries: seq<Entry>, dirty: bool, column: int, descending: bool): (r: seq<Entry>)
    ensures multiset(r) == multiset(entries)
    ensures dirty ==> Sorted(r, column, descending)
    ensures !dirty ==> r == entries
  {
    SortBySorted(entries, column, descending);
    SortByPermutes(entries, column, descending);
    if dirty then SortBy(entries, column, descending) else entries
  }

  /** The dialog state after the rows were drawn: choosing "delete" in the
      context menu of row i (offered only with a delete action) opens the
      dialog for the entry of that row. */
  function AfterClick(confirm: Confirm, action: DeleteAction, click: Option<nat>, rows: seq<Entry>, fileType: string): (r: Confirm)
    ensures r != confirm ==>
      (action == Unlink && click.Some? && click.value < |rows| &&
       r == Pending(DeletePrompt(fileType, rows[click.value].displayName), rows[click.value]))
  {
    if action == Unlink && click.Some? && click.value < |rows|
    then Pending(DeletePrompt(fileType, rows[click.value].displayName), rows[click.value])
    else confirm
  }

  /** Choosing "delete" on a shown row, with the default action, opens the
      dialog for that row's entry; with no action or no such row the dialog
      stays as it was. */
  lemma ClickOpens(confirm: Confirm, action: DeleteAction, click: Option<nat>, rows: seq<Entry>, fileType: string)
    ensures action == Unlink && click.Some? && click.value < |rows| ==>
      AfterClick(confirm, action, click, rows, fileType) == Pending(DeletePrompt(fileType, rows[click.value].displayName), rows[click.value])
    ensures !(action == Unlink && click.Some? && click.value < |rows|) ==>
      AfterClick(confirm, action, click, rows, fileType) == confirm
  {
  }

  /** The files after the delete action ran on entry: the default action
      unlinks the entry's file, which can fail (the result of unlink is
      ignored, and the file stays); without an action nothing happens. */
  function Removed(roots: seq<seq<WalkedFile>>, action: DeleteAction, unlinkOk: bool, entry: Entry): seq<seq<WalkedFile>>
  {
    if action == Unlink && unlinkOk then Unlinked(roots, entry.fullName) else roots
  }

  /** The state a frame of the widget reads and leaves: its entries, its
      needSort flag, the confirmation dialog, the files, and the table's
      SpecsDirty flag. */
  datatype Frame = Frame(entries: seq<Entry>, needSort: bool, confirm: Confirm, roots: seq<seq<WalkedFile>>, specsDirty: bool)

  /** What happens in a frame outside the widget: the row whose "delete"
      the user chose, the answer to the dialog, and whether an unlink done
      in this frame succeeds. */
  datatype UserInput = UserInput(click: Option<nat>, answer: Answer, unlinkOk: bool)

  /** The listing of each search path of the user data directory: what
      foreach_file walks, and what unlink changes. */
  class FileSystem {
    var roots: seq<seq<WalkedFile>>

    constructor (roots: seq<seq<WalkedFile>>)
      ensures this.roots == roots
    {
      this.roots := roots;
    }

    /** FileOperations::unlink(path); ok says whether the removal
        succeeded. */
    method UnlinkFile(path: string, ok: bool)
      modifies this
      ensures roots == if ok then Unlinked(old(roots), path) else old(roots)
    {
      if ok {
        roots := Unlinked(roots, path);
      }
    }
  }

  /** ImGui's sort specification of the table, as far as drawTable uses it. */
  class SortSpecs {
    var specsDirty: bool
    var specsCount: nat
    var column: int
    var descending: bool

    constructor (specsDirty: bool, specsCount: nat, column: int, descending: bool)
      ensures this.specsDirty == specsDirty && this.specsCount == specsCount
      ensures this.column == column && this.descending == descending
    {
      this.specsDirty := specsDirty;
      this.specsCount := specsCount;
      this.column := column;
      this.descending := descending;
    }
  }

  class FileListWidget {
    const fileType: string
    const extension: string
    const directory: string
    const confirmTitle: string
    var entries: seq<Entry>
    var menuOpen: bool
    var needSort: bool
    var deleteAction: DeleteAction
    var confirm: Confirm

    /** The constructor: the default delete action unlinks the file, and
        the dialog's title names the file type. */
    constructor (fileType: string, extension: string, directory: string)
      ensures this.fileType == fileType && this.extension == extension && this.directory == directory
      ensures confirmTitle == "Confirm delete##filelist-" + fileType
      ensures deleteAction == Unlink && confirm == Idle
      ensures entries == [] && !menuOpen && !needSort
    {
      this.fileType := fileType;
      this.extension := extension;
      this.directory := directory;
      confirmTitle := "Confirm delete##filelist-" + fileType;
      entries := [];
      menuOpen := false;
      needSort := false;
      deleteAction := Unlink;
      confirm := Idle;
    }

    /** The widget's part of the state of a frame. */
    ghost function State(fs: FileSystem, specs: SortSpecs): Frame
      reads this, fs, specs
    {
      Frame(entries, needSort, confirm, fs.roots, specs.specsDirty)
    }

    /** The rows drawTable shows for state f. */
    function Shown(f: Frame, column: int, descending: bool): seq<Entry>
    {
      Resorted(f.entries, f.specsDirty || f.needSort, column, descending)
    }

    /** The dialog once the rows of state f were drawn and clicked. */
    function Chosen(f: Frame, column: int, descending: bool, action: DeleteAction, click: Option<nat>): Confirm
    {
      AfterClick(f.confirm, action, click, Shown(f, column, descending), fileType)
    }

    /** One drawTable from state f: what it shows and the state it leaves.
        With no entries only the "no files" text; otherwise the rows,
        resorted when due, and then the dialog: a confirmed delete runs the
        action on the captured entry and rescans, a cancelled one closes,
        an unanswered one stays open. */
    function TableStep(f: Frame, column: int, descending: bool, action: DeleteAction, input: UserInput): (View, Frame)
    {
      if f.entries == [] then (NoFiles(NoFilesMessage(fileType)), f)
      else
        var rows := Shown(f, column, descending);
        var c := Chosen(f, column, descending, action, input.click);
        if c.Pending? && input.answer == Confirmed then
          var roots := Removed(f.roots, action, input.unlinkOk, c.entry);
          (Rows(rows), Frame(Scan(roots, extension), true, Idle, roots, false))
        else if c.Pending? && input.answer == Cancelled then
          (Rows(rows), Frame(rows, false, Idle, f.roots, false))
        else
          (Rows(rows), Frame(rows, false, c, f.roots, false))
    }

    /** One draw from state f: a rescan when the menu was closed in the
        previous frame, then drawTable. */
    function DrawStep(wasOpen: bool, f: Frame, column: int, descending: bool, action: DeleteAction, input: UserInput): (View, Frame)
    {
      TableStep(if wasOpen then f else f.(entries := Scan(f.roots, extension), needSort := true), column, descending, action, input)
    }

    /** The rows a frame shows right after a rescan of roots: the scanned
        entries sorted by the current column, or the "no files" text. */
    function ShownAfterScan(roots: seq<seq<WalkedFile>>, column: int, descending: bool): View
    {
      var scanned := Scan(roots, extension);
      if scanned == [] then NoFiles(NoFilesMessage(fileType)) else Rows(SortBy(scanned, column, descending))
    }

    /** What a table frame shows: the "no files" text and no change when
        there are no entries; otherwise the entries themselves, ordered when
        a resort was due, and both dirty flags are clear afterwards unless a
        delete rescanned. */
    lemma TableStepShows(f: Frame, column: int, descending: bool, action: DeleteAction, input: UserInput)
      ensures f.entries == [] ==> TableStep(f, column, descending, action, input) == (NoFiles(NoFilesMessage(fileType)), f)
      ensures f.entries != [] ==>
        var (view, g) := TableStep(f, column, descending, action, input);
        view.Rows? && multiset(view.rows) == multiset(f.entries) &&
        ((f.specsDirty || f.needSort) ==> Sorted(view.rows, column, descending)) &&
        !g.specsDirty &&
        (!(Chosen(f, column, descending, action, input.click).Pending? && input.answer == Confirmed) ==>
          g.entries == view.rows && !g.needSort && g.roots == f.roots)
    {
    }

    /** A confirmed delete rescans: the entries are the scan of the files
        that remain. When the default action's unlink succeeds, the deleted
        file's entries are gone and every other entry is still there; when
        it fails (or there is no action) the rescan finds the same files,
        so the entry comes back. */
    lemma DeleteFrame(f: Frame, column: int, descending: bool, action: DeleteAction, input: UserInput, e: Entry)
      requires f.entries != [] && input.answer == Confirmed
      requires Chosen(f, column, descending, action, input.click).Pending?
      ensures var g := TableStep(f, column, descending, action, input).1;
        g.entries == Scan(g.roots, extension) && g.needSort && g.confirm == Idle && !g.specsDirty &&
        (action == Unlink && input.unlinkOk ==>
          (e in g.entries <==> e in Scan(f.roots, extension) && e.fullName != Chosen(f, column, descending, action, input.click).entry.fullName)) &&
        (!(action == Unlink && input.unlinkOk) ==> g.entries == Scan(f.roots, extension))
    {
      var c := Chosen(f, column, descending, action, input.click);
      if action == Unlink && input.unlinkOk {
        UnlinkRescan(f.roots, extension, c.entry.fullName, e);
      }
    }

    /** Redrawing an open menu whose sort is settled, with no click and no
        answer, shows the kept entries and changes nothing. */
    lemma OpenRedraw(f: Frame, column: int, descending: bool, action: DeleteAction, unlinkOk: bool)
      requires !f.needSort && !f.specsDirty
      ensures DrawStep(true, f, column, descending, action, UserInput(None, NoAnswer, unlinkOk)) ==
        (if f.entries == [] then NoFiles(NoFilesMessage(fileType)) else Rows(f.entries), f)
    {
    }

    /** On the transition from closed to open the frame shows the fresh
        scan, sorted by the current column. */
    lemma OpenEdge(f: Frame, column: int, descending: bool, action: DeleteAction, input: UserInput)
      ensures DrawStep(false, f, column, descending, action, input).0 == ShownAfterScan(f.roots, column, descending)
    {
    }

    /** scanDirectory: clear the entries, then walk every search path and
        keep the files whose name ends with the extension. */
    method ScanDirectory(fs: FileSystem)
      modifies this`entries, this`needSort
      ensures entries == Scan(fs.roots, extension) && needSort
    {
      entries := [];
      var r := 0;
      while r < |fs.roots|
        invariant 0 <= r <= |fs.roots|
        invariant entries == Scan(fs.roots[..r], extension)
      {
        var files := fs.roots[r];
        var k := 0;
        while k < |files|
          invariant 0 <= k <= |files|
          invariant entries == Scan(fs.roots[..r], extension) + ScanRoot(files[..k], extension)
        {
          var f := files[k];
          if EndsWith(f.name, extension) {
            entries := entries + [Entry(f.fullName, f.name[..|f.name| - |extension|], f.ftime)];
          }
          assert files[..k + 1][..k] == files[..k];
          k := k + 1;
        }
        assert files[..k] == files;
        assert fs.roots[..r + 1][..r] == fs.roots[..r];
        r := r + 1;
      }
      assert fs.roots[..r] == fs.roots;
      needSort := true;
    }

    /** menu(text) and menu(text, enabled): ImGui draws the contents (draw)
        while the menu is open, and the open state of this frame becomes
        menuOpen. A disabled menu does not open. */
    method Menu(enabled: bool, isOpen: bool, fs: FileSystem, specs: SortSpecs, input: UserInput)
      returns (view: Option<View>)
      requires enabled && isOpen ==> DrawReady(fs, specs, !menuOpen)
      modifies this`entries, this`needSort, this`menuOpen, this`confirm, fs, specs`specsDirty
      ensures menuOpen == (enabled && isOpen)
      ensures !(enabled && isOpen) ==> view == None && State(fs, specs) == old(State(fs, specs))
      ensures enabled && isOpen ==>
        view.Some? &&
        (view.value, State(fs, specs)) == DrawStep(old(menuOpen), old(State(fs, specs)), specs.column, specs.descending, deleteAction, input)
    {
      if enabled && isOpen {
        var v := Draw(fs, specs, input);
        view := Some(v);
      } else {
        view := None;
      }
      menuOpen := enabled && isOpen;
    }

    /** What drawTable asserts of the sort specification when it has to
        sort, given whether a scan happens first. */
    ghost predicate DrawReady(fs: FileSystem, specs: SortSpecs, scans: bool)
      reads this, fs, specs
    {
      (if scans then Scan(fs.roots, extension) != [] else entries != [] && (specs.specsDirty || needSort)) ==>
        specs.specsCount == 1 && 0 <= specs.column < 2
    }

    /** draw: rescan only on the transition from closed to open, then
        drawTable. */
    method Draw(fs: FileSystem, specs: SortSpecs, input: UserInput) returns (view: View)
      requires DrawReady(fs, specs, !menuOpen)
      modifies this`entries, this`needSort, this`confirm, fs, specs`specsDirty
      ensures (view, State(fs, specs)) == DrawStep(old(menuOpen), old(State(fs, specs)), specs.column, specs.descending, deleteAction, input)
    {
      if !menuOpen {
        ScanDirectory(fs);
      }
      view := DrawTable(fs, specs, input);
    }

    /** drawTable: with no entries only the "no files" text (and the dialog
        is not run); otherwise resort when needed, draw the rows, offer the
        delete action on them, and run the confirmation dialog. */
    method DrawTable(fs: FileSystem, specs: SortSpecs, input: UserInput) returns (view: View)
      requires entries != [] && (specs.specsDirty || needSort) ==> specs.specsCount == 1 && 0 <= specs.column < 2
      modifies this`entries, this`needSort, this`confirm, fs, specs`specsDirty
      ensures (view, State(fs, specs)) == TableStep(old(State(fs, specs)), specs.column, specs.descending, deleteAction, input)
    {
      if entries == [] {
        view := NoFiles(NoFilesMessage(fileType));
        return;
      }
      view := DrawRows(specs, input.click);
      Execute(fs, input.answer, input.unlinkOk);
    }

    /** The table part of drawTable: resort if the sort specification is
        dirty or a scan asked for it, show the rows, and open the dialog for
        the row whose "delete" was chosen. */
    method DrawRows(specs: SortSpecs, click: Option<nat>) returns (view: View)
      requires (specs.specsDirty || needSort) ==> specs.specsCount == 1 && 0 <= specs.column < 2
      modifies this`entries, this`needSort, this`confirm, specs`specsDirty
      ensures entries == Resorted(old(entries), old(specs.specsDirty) || old(needSort), specs.column, specs.descending)
      ensures view == Rows(entries) && !specs.specsDirty && !needSort
      ensures confirm == AfterClick(old(confirm), deleteAction, click, entries, fileType)
    {
      if specs.specsDirty || needSort {
        specs.specsDirty := false;
        needSort := false;
        entries := SortBy(entries, specs.column, specs.descending);
      }
      view := Rows(entries);
      if deleteAction == Unlink && click.Some? && click.value < |entries| {
        var entry := entries[click.value];
        confirm := Pending(DeletePrompt(fileType, entry.displayName), entry);
      }
    }

    /** confirmDelete.execute(): a confirmed dialog runs the closure
        (deleteAction on the captured entry, then scanDirectory), a
        cancelled one closes. */
    method Execute(fs: FileSystem, answer: Answer, unlinkOk: bool)
      modifies this`entries, this`needSort, this`confirm, fs
      ensures confirm.Pending? ==> confirm == old(confirm)
      ensures old(confirm).Pending? && answer == Confirmed ==>
        confirm == Idle && fs.roots == Removed(old(fs.roots), deleteAction, unlinkOk, old(confirm).entry) &&
        entries == Scan(fs.roots, extension) && needSort
      ensures !(old(confirm).Pending? && answer == Confirmed) ==>
        fs.roots == old(fs.roots) && entries == old(entries) && needSort == old(needSort)
      ensures old(confirm).Pending? && answer == Cancelled ==> confirm == Idle
      ensures old(confirm).Idle? || answer == NoAnswer ==> confirm == old(confirm)
    {
      if confirm.Pending? {
        if answer == Confirmed {
          var entry := confirm.entry;
          confirm := Idle;
          if deleteAction == Unlink {
            fs.UnlinkFile(entry.fullName, unlinkOk);
          }
          ScanDirectory(fs);
        } else if answer == Cancelled {
          confirm := Idle;
        }
      }
    }
  }
}
