/**
  Splitting a chosen file into the path and the name a level is saved or
  loaded under, with the QString operations it relies on.
 */
module Paths {

  /** QDir::toNativeSeparators: every '/' becomes the native separator. */
  function ToNativeSeparators(s: string, sep: char): (r: string)
    ensures |r| == |s|
    ensures forall i :: 0 <= i < |s| ==> r[i] == (if s[i] == '/' then sep else s[i])
    ensures sep == '/' ==> r == s
    ensures sep != '/' ==> '/' !in r
  {
    seq(|s|, i requires 0 <= i < |s| => if s[i] == '/' then sep else s[i])
  }

  /** QString::lastIndexOf for one character: the last position holding c, or -1. */
  function LastIndexOf(s: string, c: char): (i: int)
    ensures -1 <= i < |s|
    ensures i == -1 <==> c !in s
    ensures 0 <= i ==> s[i] == c && c !in s[i + 1..]
  {
    if |s| == 0 then -1
    else if s[|s| - 1] == c then |s| - 1
    else
      var init := s[..|s| - 1];
      var i := LastIndexOf(init, c);
      assert s == init + [s[|s| - 1]];
      assert i >= 0 ==> s[i + 1..] == init[i + 1..] + [s[|s| - 1]];
      i
  }

  /**
    QString::mid(position, n): n characters from position, clamped to the
    string; a negative n means "to the end". A negative position keeps the
    part of the range that falls inside the string.
   */
  function Mid(s: string, position: int, n: int): (r: string)
    ensures position > |s| ==> r == ""
    ensures 0 <= position <= |s| && (n < 0 || n > |s| - position) ==> r == s[position..]
    ensures 0 <= position <= |s| && 0 <= n <= |s| - position ==> r == s[position..position + n]
  {
    if position > |s| then ""
    else if position < 0 then
      if n < 0 || n + position >= |s| then s
      else if n + position <= 0 then ""
      else s[..n + position]
    else
      var len := if n < 0 || n > |s| - position then |s| - position else n;
      s[position..position + len]
  }

  /** The file a level with this path and name is kept in. */
  function FilePath(path: string, name: string, sep: char): (f: string)
    ensures |f| == |path| + 1 + |name|
    ensures f[..|path|] == path && f[|path|] == sep && f[|path| + 1..] == name
  {
    path + [sep] + name
  }

  datatype NameAndPath = NameAndPath(name: string, path: string)

  /**
    extarctNameAndPath: after normalising the separators, the name is what
    follows the last separator and the path what precedes it. Without a
    separator, lastIndexOf gives -1 and both are the whole source.
   */
  function ExtractNameAndPath(source: string, sep: char): (r: NameAndPath)
    ensures var src := ToNativeSeparators(source, sep);
      && sep !in r.name
      && (sep in src ==> FilePath(r.path, r.name, sep) == src)
      && (sep in src ==> r.path == src[..LastIndexOf(src, sep)])
      && (sep !in src ==> r.name == src && r.path == src)
      && (|src| > 0 && src[|src| - 1] == sep ==> r.name == "")
  {
    var src := ToNativeSeparators(source, sep);
    var last := LastIndexOf(src, sep);
    var r := NameAndPath(Mid(src, last + 1, |src| - last), Mid(src, 0, last));
    assert last >= 0 ==> src == src[..last] + [sep] + src[last + 1..];
    r
  }

  /**
    The file a level is saved to splits back into its name and path, as long
    as the name holds no separator and no '/' needs normalising.
   */
  lemma SplitFilePath(path: string, name: string, sep: char)
    requires sep !in name
    requires sep == '/' || ('/' !in path && '/' !in name)
    ensures ExtractNameAndPath(FilePath(path, name, sep), sep) == NameAndPath(name, path)
  {
    var s := FilePath(path, name, sep);
    forall i | 0 <= i < |s| ensures s[i] != '/' || sep == '/' {
      if i < |path| {
        assert s[i] == path[i];
      } else if i > |path| {
        assert s[i] == name[i - |path| - 1];
      }
    }
    var src := ToNativeSeparators(s, sep);
    assert src == s;
    assert s[|path|] == sep;
    var last := LastIndexOf(s, sep);
    assert last == |path|;
    assert s[..|path|] == path;
    assert s[|path| + 1..] == name;
  }
}

/** The decision logic of the main window: menu state and closing the open level. */
module MainWindow {
  import opened Wrappers

  datatype MenuState = LevelUnloaded | LevelLoaded | LevelChanged

  /** Which widgets a menu state enables. */
  datatype MenuActions = MenuActions(drawAreaEnabled: bool, saveEnabled: bool)

  /** setMenuActionsState: the draw area works once a level is open; Save only with changes. */
  function MenuActionsState(state: MenuState): (a: MenuActions)
    ensures a.drawAreaEnabled <==> state != LevelUnloaded
    ensures a.saveEnabled <==> state == LevelChanged
    ensures a.saveEnabled ==> a.drawAreaEnabled
  {
    match state
    case LevelUnloaded => MenuActions(false, false)
    case LevelLoaded => MenuActions(true, false)
    case LevelChanged => MenuActions(true, true)
  }

  /** The button the user presses in the unsaved-changes question. */
  datatype Reply = Yes | No | Cancel | OtherButton

  /** What the window's level pointer refers to: nothing, a live level, or a deleted one. */
  datatype LevelSlot = NoLevel | Open(changed: bool) | Freed

  /** Whether the caller may go on, and whether the save command runs first. */
  datatype Decision = Decision(toClose: bool, saveRequested: bool)

  /** The outcome of closing, with what the level pointer refers to afterwards. */
  datatype Closing = Closing(toClose: bool, saveRequested: bool, after: LevelSlot)

  /** The question is asked only for a changed level; Yes and No close, Yes saving first. */
  function Decide(changed: bool, reply: Reply): (d: Decision)
    ensures !changed ==> d == Decision(true, false)
    ensures changed ==> (d.toClose <==> reply == Yes || reply == No) && (d.saveRequested <==> reply == Yes)
  {
    if !changed then Decision(true, false)
    else
      match reply
      case Yes => Decision(true, true)
      case No => Decision(true, false)
      case Cancel => Decision(false, false)
      case OtherButton => Decision(false, false)
  }

  /**
    closeLevel as written: a closed level is deleted but the pointer keeps
    its value, so a later call reads a deleted level (None: undefined).
   */
  function CloseLevelAsWritten(slot: LevelSlot, reply: Reply): (c: Option<Closing>)
    ensures slot == Freed <==> c == None
    ensures c.Some? && c.value.toClose && slot.Open? ==> c.value.after == Freed
  {
    match slot
    case NoLevel => Some(Closing(true, false, NoLevel))
    case Freed => None
    case Open(changed) =>
      var d := Decide(changed, reply);
      Some(Closing(d.toClose, d.saveRequested, if d.toClose then Freed else slot))
  }

  /**
    The dangling pointer: an unchanged level is closed (as by New Level), the
    command is then abandoned (empty name), and the next close reads the
    deleted level.
   */
  lemma CloseTwiceAsWrittenReadsFreed()
    ensures CloseLevelAsWritten(Open(false), No) == Some(Closing(true, false, Freed))
    ensures CloseLevelAsWritten(Freed, No) == None
  {
  }

  /**
    closeLevel with the pointer reset when the level is deleted. With no
    level it closes; with an unchanged level it closes without asking; with
    a changed one Yes saves and closes, No closes, anything else keeps the
    level.
   */
  function CloseLevel(slot: LevelSlot, reply: Reply): (c: Option<Closing>)
    ensures slot != Freed ==> c.Some? && c.value.after != Freed
    ensures slot == NoLevel ==> c == Some(Closing(true, false, NoLevel))
    ensures slot == Open(false) ==> c == Some(Closing(true, false, NoLevel))
    ensures slot == Open(true) ==>
      && c.Some?
      && (c.value.toClose <==> reply == Yes || reply == No)
      && (c.value.saveRequested <==> reply == Yes)
    ensures c.Some? && c.value.toClose ==> c.value.after == NoLevel
    ensures c.Some? && !c.value.toClose ==> c.value.after == slot
  {
    match slot
    case NoLevel => Some(Closing(true, false, NoLevel))
    case Freed => None
    case Open(changed) =>
      var d := Decide(changed, reply);
      Some(Closing(d.toClose, d.saveRequested, if d.toClose then NoLevel else slot))
  }
}
