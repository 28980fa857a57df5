/** The file panel's own logic: the paths it builds from a parent and a name,
    the rename target and the name shown when asking before a delete, and the
    new-item dialog.  The calls it makes into the file tree and the editor
    (create, load, rename, delete, close, activate, save) are recorded, in
    order, in a trace of effects; whether an awaited call succeeds is an input. */
module FilePanel {
  import opened Wrappers

  /** `'file' | 'directory'`; `null` is `None` of `Option<ItemKind>`. */
  datatype ItemKind = File | Directory

  /** A call the panel makes into `useFileTree` or `useEditor`. */
  datatype Effect =
    | SetActiveFile(path: string)
    | LoadFile(path: string)
    | CreateFile(path: string)
    | CreateDirectory(path: string)
    | RenameItem(from: string, to: string)
    | DeleteItem(path: string)
    | CloseFile(path: string)
    | SaveFile(path: string)

  const Sep: char := '/'

  // ---------------------------------------------------------------------------
  // String operations of the JavaScript runtime

  /** `s.lastIndexOf(c)` for a one-character needle. */
  function LastIndexOf(s: string, c: char): (i: int)
    ensures -1 <= i < |s|
    ensures 0 <= i ==> s[i] == c && forall k :: i < k < |s| ==> s[k] != c
    ensures i == -1 <==> forall k :: 0 <= k < |s| ==> s[k] != c
    decreases |s|
  {
    if s == [] then -1
    else if s[|s| - 1] == c then |s| - 1
    else LastIndexOf(s[..|s| - 1], c)
  }

  /** How `substring` treats an index: below 0 reads as 0, past the end as the length. */
  function Clamp(i: int, n: nat): (r: nat)
    ensures r <= n
    ensures 0 <= i <= n ==> r == i
    ensures i < 0 ==> r == 0
    ensures n < i ==> r == n
  {
    if i < 0 then 0 else if i > n then n else i
  }

  /** `s.substring(start, end)`: both indices clamped, swapped when out of order. */
  function Substring(s: string, start: int, end: int): (r: string)
    ensures |r| <= |s|
    ensures Clamp(start, |s|) <= Clamp(end, |s|) ==> r == s[Clamp(start, |s|)..Clamp(end, |s|)]
    ensures Clamp(end, |s|) < Clamp(start, |s|) ==> r == s[Clamp(end, |s|)..Clamp(start, |s|)]
  {
    var a, b := Clamp(start, |s|), Clamp(end, |s|);
    if a <= b then s[a..b] else s[b..a]
  }

  /** `s.split(c)` for a one-character separator: the pieces between
      consecutive separators, the empty string where two are adjacent or the
      string starts or ends with one.  Written from the end, where `pop`
      takes its piece. */
  function Split(s: string, c: char): (r: seq<string>)
    ensures |r| > 0
    ensures |r| == 1 <==> LastIndexOf(s, c) == -1
    decreases |s|
  {
    if s == [] then [""]
    else
      var init := Split(s[..|s| - 1], c);
      if s[|s| - 1] == c then init + [""]
      else init[..|init| - 1] + [init[|init| - 1] + [s[|s| - 1]]]
  }

  /** `parts.join(c)`. */
  function Join(parts: seq<string>, c: char): string
    requires |parts| > 0
    decreases |parts|
  {
    if |parts| == 1 then parts[0]
    else Join(parts[..|parts| - 1], c) + [c] + parts[|parts| - 1]
  }

  /** Joining the pieces with the separator gives the string back. */
  lemma {:induction false} JoinSplit(s: string, c: char)
    ensures Join(Split(s, c), c) == s
    decreases |s|
  {
    if s != [] {
      var t := s[..|s| - 1];
      JoinSplit(t, c);
      if s[|s| - 1] == c {
        JoinEmptyLast(Split(t, c), c);
      } else {
        JoinGrowLast(Split(t, c), c, s[|s| - 1]);
      }
      assert s == t + [s[|s| - 1]];
    }
  }

  /** An empty last piece adds one separator to the join. */
  lemma JoinEmptyLast(parts: seq<string>, c: char)
    requires |parts| > 0
    ensures Join(parts + [""], c) == Join(parts, c) + [c]
  {
    assert (parts + [""])[..|parts|] == parts;
  }

  /** Extending the last piece extends the join by the same character. */
  lemma JoinGrowLast(parts: seq<string>, c: char, x: char)
    requires |parts| > 0
    ensures Join(parts[..|parts| - 1] + [parts[|parts| - 1] + [x]], c) == Join(parts, c) + [x]
  {
    var grown := parts[..|parts| - 1] + [parts[|parts| - 1] + [x]];
    if |parts| > 1 {
      assert grown[..|grown| - 1] == parts[..|parts| - 1];
    }
  }

  /** No piece contains the separator. */
  lemma {:induction false} SplitPieces(s: string, c: char)
    ensures forall i :: 0 <= i < |Split(s, c)| ==> c !in Split(s, c)[i]
    decreases |s|
  {
    if s != [] {
      SplitPieces(s[..|s| - 1], c);
      var init := Split(s[..|s| - 1], c);
      var r := Split(s, c);
      forall i | 0 <= i < |r| ensures c !in r[i] {
        if i < |init| - 1 || (s[|s| - 1] == c && i < |init|) {
          assert r[i] == init[i];
        }
      }
    }
  }

  /** The last piece of a split is what follows the last separator. */
  lemma {:induction false} LastPiece(s: string, c: char)
    ensures Split(s, c)[|Split(s, c)| - 1] == s[LastIndexOf(s, c) + 1..]
    decreases |s|
  {
    if s != [] && s[|s| - 1] != c {
      var t := s[..|s| - 1];
      var j := LastIndexOf(t, c);
      LastPiece(t, c);
      LastPieceGrows(s, c, t[j + 1..]);
      assert LastIndexOf(s, c) == j;
      SuffixGrows(s, j + 1);
    }
  }

  /** Dropping a prefix and appending a character commute. */
  lemma SuffixGrows(s: string, n: nat)
    requires n < |s|
    ensures s[n..] == s[..|s| - 1][n..] + [s[|s| - 1]]
  {
  }

  /** A last character other than the separator extends the last piece. */
  lemma LastPieceGrows(s: string, c: char, last: string)
    requires s != [] && s[|s| - 1] != c
    requires Split(s[..|s| - 1], c)[|Split(s[..|s| - 1], c)| - 1] == last
    ensures Split(s, c)[|Split(s, c)| - 1] == last + [s[|s| - 1]]
  {
  }

  // ---------------------------------------------------------------------------
  // Paths

  /** `${parent}/${name}`: the path of a new item and of a rename target. */
  function ChildPath(parent: string, name: string): (r: string)
    ensures |r| == |parent| + 1 + |name|
    ensures r[..|parent|] == parent && r[|parent|] == Sep && r[|parent| + 1..] == name
  {
    parent + [Sep] + name
  }

  /** `path.substring(0, path.lastIndexOf('/'))`: everything before the last
      separator, or the empty string when there is none. */
  function Parent(path: string): (r: string)
    ensures var i := LastIndexOf(path, Sep);
      if i >= 0 then r == path[..i] else r == ""
  {
    Substring(path, 0, LastIndexOf(path, Sep))
  }

  /** `path.split('/').pop()`: the last separator-free segment. */
  function Basename(path: string): (r: string)
    ensures Sep !in r
    ensures r == path[LastIndexOf(path, Sep) + 1..]
  {
    var parts := Split(path, Sep);
    SplitPieces(path, Sep);
    LastPiece(path, Sep);
    parts[|parts| - 1]
  }

  /** The path `handleRename` passes to `renameItem`. */
  function RenameTarget(path: string, newName: string): (r: string)
    ensures Sep in path ==> r == path[..LastIndexOf(path, Sep)] + [Sep] + newName
    ensures Sep !in path ==> r == [Sep] + newName
  {
    ChildPath(Parent(path), newName)
  }

  /** The text `handleDelete` shows in its confirmation. */
  function DeletePrompt(path: string): (r: string)
    ensures |r| == |Basename(path)| + 10
    ensures r[..8] == "Delete \"" && r[|r| - 2..] == "\"?"
    ensures r[8..|r| - 2] == path[LastIndexOf(path, Sep) + 1..]
  {
    "Delete \"" + Basename(path) + "\"?"
  }

  /** In a child path the last separator is the one before the name. */
  lemma LastIndexOfChild(parent: string, name: string)
    requires Sep !in name
    ensures LastIndexOf(ChildPath(parent, name), Sep) == |parent|
  {
    var p := ChildPath(parent, name);
    var i := LastIndexOf(p, Sep);
    assert p[|parent|] == Sep;
  }

  /** A child path splits back into its parent and its name. */
  lemma ChildPathParts(parent: string, name: string)
    requires Sep !in name
    ensures Parent(ChildPath(parent, name)) == parent
    ensures Basename(ChildPath(parent, name)) == name
  {
    LastIndexOfChild(parent, name);
    var p := ChildPath(parent, name);
    assert p[..|parent|] == parent;
    assert p[|parent| + 1..] == name;
  }

  /** Renaming keeps the parent directory and gives the new name: the target
      of renaming `parent/name` is `parent/newName`. */
  lemma RenameKeepsParent(path: string, newName: string)
    requires Sep !in newName
    ensures Parent(RenameTarget(path, newName)) == Parent(path)
    ensures Basename(RenameTarget(path, newName)) == newName
  {
    ChildPathParts(Parent(path), newName);
  }

  /** Renaming a child path replaces exactly its name. */
  lemma RenameChild(parent: string, name: string, newName: string)
    requires Sep !in name
    ensures RenameTarget(ChildPath(parent, name), newName) == ChildPath(parent, newName)
  {
    ChildPathParts(parent, name);
  }

  // ---------------------------------------------------------------------------
  // What each handler issues

  /** `handleFileClick`: a path that already has a tab is only made active;
      any other path is loaded. */
  function ClickEffects(tabPaths: seq<string>, path: string): (r: seq<Effect>)
    ensures |r| == 1
    ensures r[0].SetActiveFile? <==> path in tabPaths
    ensures r[0].LoadFile? <==> path !in tabPaths
    ensures r[0].path == path
  {
    if path in tabPaths then [SetActiveFile(path)] else [LoadFile(path)]
  }

  /** `handleNewItemConfirm`: a file is created and then, once created,
      opened; a directory is only created; with no kind nothing is issued. */
  function ConfirmEffects(kind: Option<ItemKind>, parent: string, name: string, created: bool): (r: seq<Effect>)
    ensures kind.None? <==> r == []
    ensures |r| == (if kind.None? then 0 else 1) + (if kind == Some(File) && created then 1 else 0)
    ensures forall e :: e in r ==> !e.RenameItem? && e.path == ChildPath(parent, name)
    ensures kind == Some(Directory) ==> r == [CreateDirectory(ChildPath(parent, name))]
    ensures kind == Some(File) ==> r[0] == CreateFile(ChildPath(parent, name))
    ensures kind == Some(File) && created ==> r[1] == LoadFile(ChildPath(parent, name))
    ensures LoadFile(ChildPath(parent, name)) in r <==> kind == Some(File) && created
  {
    var fullPath := ChildPath(parent, name);
    match kind
    case Some(File) => [CreateFile(fullPath)] + (if created then [LoadFile(fullPath)] else [])
    case Some(Directory) => [CreateDirectory(fullPath)]
    case None => []
  }

  /** `handleDelete`: nothing unless confirmed; the tab is closed only once
      the deletion has succeeded. */
  function DeleteEffects(path: string, confirmed: bool, deleted: bool): (r: seq<Effect>)
    ensures !confirmed <==> r == []
    ensures |r| == (if confirmed then 1 else 0) + (if confirmed && deleted then 1 else 0)
    ensures forall e :: e in r ==> !e.RenameItem? && e.path == path
    ensures confirmed ==> r[0] == DeleteItem(path)
    ensures confirmed && deleted ==> r[1] == CloseFile(path)
    ensures CloseFile(path) in r <==> confirmed && deleted
  {
    if confirmed then [DeleteItem(path)] + (if deleted then [CloseFile(path)] else []) else []
  }

  // ---------------------------------------------------------------------------
  // The component

  /** The two dialog state cells of a mounted panel and the effects it has
      issued. */
  class Panel {
    var newItemType: Option<ItemKind>
    var newItemParentPath: string
    var trace: seq<Effect>

    /** A closed dialog has no parent path. */
    ghost predicate Valid()
      reads this
    {
      newItemType.None? ==> newItemParentPath == ""
    }

    /** `isOpen={newItemType !== null}`. */
    predicate IsOpen()
      reads this
    {
      newItemType.Some?
    }

    /** `type={newItemType || 'file'}`. */
    function DialogKind(): (k: ItemKind)
      reads this
      ensures IsOpen() ==> Some(k) == newItemType
      ensures !IsOpen() ==> k == File
    {
      newItemType.GetOr(File)
    }

    constructor ()
      ensures Valid() && !IsOpen()
      ensures newItemType == None && newItemParentPath == "" && trace == []
    {
      newItemType, newItemParentPath, trace := None, "", [];
    }

    method HandleFileClick(tabPaths: seq<string>, path: string)
      requires Valid()
      modifies this`trace
      ensures Valid()
      ensures trace == old(trace) + ClickEffects(tabPaths, path)
    {
      if path in tabPaths {
        trace := trace + [SetActiveFile(path)];
      } else {
        trace := trace + [LoadFile(path)];
      }
    }

    method HandleTabClick(path: string)
      requires Valid()
      modifies this`trace
      ensures Valid()
      ensures trace == old(trace) + [SetActiveFile(path)]
    {
      trace := trace + [SetActiveFile(path)];
    }

    method HandleTabClose(path: string)
      requires Valid()
      modifies this`trace
      ensures Valid()
      ensures trace == old(trace) + [CloseFile(path)]
    {
      trace := trace + [CloseFile(path)];
    }

    method HandleSave(path: string)
      requires Valid()
      modifies this`trace
      ensures Valid()
      ensures trace == old(trace) + [SaveFile(path)]
    {
      trace := trace + [SaveFile(path)];
    }

    /** `handleCreateFile`: opens the dialog for a file under `parentPath`. */
    method HandleCreateFile(parentPath: string)
      requires Valid()
      modifies this`newItemType, this`newItemParentPath
      ensures Valid() && IsOpen() && DialogKind() == File
      ensures newItemType == Some(File) && newItemParentPath == parentPath
    {
      newItemType := Some(File);
      newItemParentPath := parentPath;
    }

    /** `handleCreateDirectory`: opens the dialog for a directory under `parentPath`. */
    method HandleCreateDirectory(parentPath: string)
      requires Valid()
      modifies this`newItemType, this`newItemParentPath
      ensures Valid() && IsOpen() && DialogKind() == Directory
      ensures newItemType == Some(Directory) && newItemParentPath == parentPath
    {
      newItemType := Some(Directory);
      newItemParentPath := parentPath;
    }

    /** `handleNewItemConfirm`; `created` is whether the awaited creation
        resolved.  A rejected creation throws before the dialog is reset. */
    method HandleNewItemConfirm(name: string, created: bool)
      requires Valid()
      modifies this
      ensures Valid()
      ensures trace == old(trace) + ConfirmEffects(old(newItemType), old(newItemParentPath), name, created)
      ensures old(!IsOpen()) ==> trace == old(trace) && newItemParentPath == old(newItemParentPath) == ""
      ensures old(!IsOpen()) || created ==>
        newItemType == None && newItemParentPath == "" && !IsOpen()
      ensures old(IsOpen()) && !created ==>
        newItemType == old(newItemType) && newItemParentPath == old(newItemParentPath)
    {
      var fullPath := ChildPath(newItemParentPath, name);
      if newItemType == Some(File) {
        trace := trace + [CreateFile(fullPath)];
        if !created {
          return;
        }
        trace := trace + [LoadFile(fullPath)];
      } else if newItemType == Some(Directory) {
        trace := trace + [CreateDirectory(fullPath)];
        if !created {
          return;
        }
      }
      newItemType := None;
      newItemParentPath := "";
    }

    /** The dialog's `onCancel`. */
    method HandleCancel()
      requires Valid()
      modifies this`newItemType, this`newItemParentPath
      ensures Valid() && !IsOpen()
      ensures newItemType == None && newItemParentPath == ""
    {
      newItemType := None;
      newItemParentPath := "";
    }

    /** `handleRename`. */
    method HandleRename(path: string, newName: string)
      requires Valid()
      modifies this`trace
      ensures Valid()
      ensures trace == old(trace) + [RenameItem(path, RenameTarget(path, newName))]
    {
      var parentPath := Substring(path, 0, LastIndexOf(path, Sep));
      var newPath := ChildPath(parentPath, newName);
      trace := trace + [RenameItem(path, newPath)];
    }

    /** `handleDelete`; `confirmed` is the answer to the prompt and `deleted`
        whether the awaited deletion resolved. */
    method HandleDelete(path: string, confirmed: bool, deleted: bool) returns (prompt: string)
      requires Valid()
      modifies this`trace
      ensures Valid()
      ensures prompt == DeletePrompt(path)
      ensures trace == old(trace) + DeleteEffects(path, confirmed, deleted)
    {
      prompt := "Delete \"" + Basename(path) + "\"?";
      if confirmed {
        trace := trace + [DeleteItem(path)];
        if deleted {
          trace := trace + [CloseFile(path)];
        }
      }
    }
  }
}
