/**
  The level document: a grid of element descriptions with a name, a storage
  path and a saved flag, placed into, read, saved to and loaded from a file.
 */
module Levels {
  import opened Wrappers
  import opened Elements
  import opened Grids
  import opened Codec
  import Paths

  /** The text a possibly null path contributes to a file name (a null QString is empty). */
  function PathText(path: Option<string>): (t: string)
    ensures path.None? ==> t == ""
    ensures path.Some? ==> t == path.value
  {
    if path.Some? then path.value else ""
  }

  class Level {
    /** The size of a level made with the New Level command. */
    static const DefaultSize: Size := Size(20, 15)

    /** How a blank level of the default size is saved: the header and 300 empty names. */
    static lemma DefaultLevelStream()
      ensures var g := BlankGrid(DefaultSize.width, DefaultSize.height);
        Encode(SizeOf(g), NamesOf(g)) == [Num(20), Num(15)] + Strs(seq(300, _ => ""))
    {
      var g := BlankGrid(DefaultSize.width, DefaultSize.height);
      NamesOfLength(g, 20, 15);
      forall i | 0 <= i < 300 ensures NamesOf(g)[i] == "" {
        var r, c := i / 20, i % 20;
        RowMajorDivMod(20, r, c);
        NamesOfAt(g, 20, 15, r, c);
      }
      assert NamesOf(g) == seq(300, _ => "");
    }

    var elements: Grid
    var name: string
    var path: Option<string>
    var isSaved: bool

    ghost predicate Valid()
      reads this
    {
      Rectangular(elements)
    }

    /** A fresh level with the given size: every cell blank, no path, not saved. */
    constructor WithSize(name: string, size: Size)
      ensures Valid()
      ensures elements == BlankGrid(size.width, size.height)
      ensures this.name == name && path == None && !isSaved
      ensures IsNew() && IsChanged()
    {
      this.name := name;
      path := None;
      isSaved := false;
      elements := [];
      new;
      Init(size);
    }

    /** A level bound to an existing file: saved, with an empty grid until `Load` runs. */
    constructor WithPath(name: string, path: string)
      ensures Valid()
      ensures elements == [] && GetSize() == Size(0, 0)
      ensures this.name == name && this.path == Some(path) && isSaved
      ensures !IsNew() && !IsChanged()
    {
      this.name := name;
      this.path := Some(path);
      isSaved := true;
      elements := [];
    }

    /** Replaces the grid by size.height rows of size.width blank cells; nothing else changes. */
    method Init(size: Size)
      modifies this
      ensures Valid()
      ensures elements == BlankGrid(size.width, size.height)
      ensures name == old(name) && path == old(path) && isSaved == old(isSaved)
    {
      elements := BlankGrid(size.width, size.height);
    }

    /** The full name of the level's file: path, separator, name. */
    function FileName(sep: char): (f: string)
      reads this
      ensures path.Some? ==> f == Paths.FilePath(path.value, name, sep)
      ensures path.None? ==> f == [sep] + name
    {
      Paths.FilePath(PathText(path), name, sep)
    }

    /**
      Reads the level's file. A missing file leaves the level as it was.
      Otherwise the grid becomes the width-by-height grid of the names read,
      and one notification per cell is returned, in row-major order.
     */
    method Load(fs: FileSystem, sep: char) returns (loaded: seq<Loaded>)
      requires Valid()
      modifies this
      ensures Valid()
      ensures name == old(name) && path == old(path) && isSaved == old(isSaved)
      ensures FileName(sep) !in fs ==> elements == old(elements) && loaded == []
      ensures FileName(sep) in fs ==>
        var d := Decode(fs[FileName(sep)]);
        && elements == GridOfNames(d.size.width, d.size.height, d.names)
        && (d.size.width > 0 || d.names == [])
        && loaded == LoadEvents(d.size.width, d.names)
    {
      var file := FileName(sep);
      if file !in fs {
        loaded := [];
        return;
      }
      var stream := fs[file];
      var afterWidth := ReadNum(stream);
      var width := afterWidth.0;
      var afterHeight := ReadNum(afterWidth.1);
      var height := afterHeight.0;
      stream := afterHeight.1;

      Init(Size(width, height));
      GridBeingLoadedStart(width, height);

      ghost var body := stream;
      ghost var read: seq<string> := [];
      loaded := [];
      var h := 0;
      while h < height
        invariant 0 <= h <= height
        invariant |read| == width * h
        invariant ReadStrs(body, |read|) == (read, stream)
        invariant elements == GridBeingLoaded(width, height, read)
        invariant width > 0 || read == []
        invariant loaded == LoadEvents(width, read)
        invariant name == old(name) && path == old(path) && isSaved == old(isSaved)
      {
        var w := 0;
        RowMajorRowBounds(width, h);
        while w < width
          invariant 0 <= w <= width
          invariant |read| == RowMajorIndex(width, h, w)
          invariant ReadStrs(body, |read|) == (read, stream)
          invariant elements == GridBeingLoaded(width, height, read)
          invariant loaded == LoadEvents(width, read)
          invariant name == old(name) && path == old(path) && isSaved == old(isSaved)
        {
          var next := ReadStr(stream);
          var elementName := next.0;
          stream := next.1;
          GridBeingLoadedStep(width, height, read, h, w, elementName);
          LoadEventsStep(width, read, h, w, elementName);
          elements := elements[h := elements[h][w := ElementDesc(elementName, map[])]];
          loaded := loaded + [ElementLoaded(elementName, Point(w, h))];
          read := read + [elementName];
          w := w + 1;
        }
        h := h + 1;
      }
      assert read == Decode(fs[file]).names;
      GridBeingLoadedDone(width, height, read);
      SizeOfGrid(elements, width, height);
    }

    /** The size of the storage: the length of its first row and the number of rows. */
    function GetSize(): (s: Size)
      reads this
      ensures |elements| == 0 ==> s == Size(0, 0)
      ensures Valid() ==> IsGrid(elements, s.width, s.height)
    {
      SizeOf(elements)
    }

    /** The cell at the given place, as a copy: reading it changes nothing. */
    function Select(position: Point): (d: ElementDesc)
      reads this
      requires InRange(elements, position)
      ensures d == elements[position.y][position.x]
    {
      elements[position.y][position.x]
    }

    /** A level is new exactly when it has never been given a path. */
    function IsNew(): (b: bool)
      reads this
      ensures b <==> path == None
    {
      path.None?
    }

    /** A level has changes exactly when it is not in the saved state. */
    function IsChanged(): (b: bool)
      reads this
      ensures b <==> !isSaved
    {
      !isSaved
    }

    /**
      Places an element: the cell at the given place becomes the element's
      name with every declared parameter at its default, every other cell
      stays as it was, and the level becomes changed.
     */
    method Add(element: Element, place: Point)
      requires Valid() && InRange(elements, place)
      modifies this
      ensures Valid()
      ensures elements == old(elements)[place.y := old(elements)[place.y][place.x := Placed(element)]]
      ensures IsChanged()
      ensures name == old(name) && path == old(path)
    {
      var paramsValues: map<string, string> := map[];
      var i := 0;
      while i < |element.parameters|
        invariant 0 <= i <= |element.parameters|
        invariant paramsValues == Defaults(element.parameters[..i])
      {
        var param := element.parameters[i];
        assert element.parameters[..i + 1][..i] == element.parameters[..i];
        paramsValues := paramsValues[param.name := param.default];
        i := i + 1;
      }
      assert element.parameters[..i] == element.parameters;
      elements := elements[place.y := elements[place.y][place.x := ElementDesc(element.name, paramsValues)]];
      isSaved := false;
    }

    /**
      Saves the level under a new name and path, which become its own: the
      file path/name receives the width, the height and every cell's name in
      row-major order, and the level is no longer changed.
     */
    method Save(newName: string, newPath: string, fs: FileSystem, sep: char) returns (fs': FileSystem)
      requires Valid()
      modifies this
      ensures Valid() && elements == old(elements)
      ensures name == newName && path == Some(newPath) && !IsChanged() && !IsNew()
      ensures fs' == fs[Paths.FilePath(newPath, newName, sep) := Encode(GetSize(), NamesOf(elements))]
    {
      name := newName;
      path := Some(newPath);
      var file := FileName(sep);
      var size := GetSize();
      var grid := elements;
      assert IsGrid(grid, size.width, size.height);
      var stream := [Num(size.width), Num(size.height)];
      for h := 0 to size.height
        modifies {}
        invariant stream == Encode(size, NamesOf(grid[..h]))
      {
        for w := 0 to size.width
          modifies {}
          invariant stream == Encode(size, NamesOf(grid[..h]) + RowNames(grid[h][..w]))
        {
          assert RowNames(grid[h][..w + 1]) == RowNames(grid[h][..w]) + [grid[h][w].name];
          StrsAppend(NamesOf(grid[..h]) + RowNames(grid[h][..w]), [grid[h][w].name]);
          stream := stream + [Str(grid[h][w].name)];
        }
        assert grid[..h + 1][..h] == grid[..h];
        assert grid[h][..size.width] == grid[h];
      }
      assert grid[..size.height] == grid;
      isSaved := true;
      fs' := fs[file := stream];
    }
  }

  /**
    Saving a level and then loading the file into a level bound to the same
    name and path gives its size and every name back, with no parameters.
   */
  method SaveThenReopen(level: Level, newName: string, newPath: string, fs: FileSystem, sep: char)
    returns (reopened: Level, fs': FileSystem, loaded: seq<Loaded>)
    requires level.Valid()
    modifies level
    ensures fresh(reopened) && reopened.Valid()
    ensures reopened.GetSize() == level.GetSize()
    ensures reopened.elements == WithoutParameters(level.elements)
    ensures |loaded| == level.GetSize().width * level.GetSize().height
    ensures !level.IsChanged() && !reopened.IsChanged()
  {
    fs' := level.Save(newName, newPath, fs, sep);
    reopened := new Level.WithPath(newName, newPath);
    loaded := reopened.Load(fs', sep);
    SaveLoadRoundTrip(level.elements);
    NamesOfLength(level.elements, level.GetSize().width, level.GetSize().height);
  }
}
