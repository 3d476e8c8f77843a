/**
  The level file as a stream of tokens: the width and height, then one
  element name per cell in row-major order.
 */
module Codec {
  import opened Elements
  import opened Grids

  /** One value written to or read from the data stream. */
  datatype Token = Num(n: nat) | Str(s: string)

  /** Contents of the files, by full file name. */
  type FileSystem = map<string, seq<Token>>

  /** A cell-loaded notification: the element name and its (column, row). */
  datatype Loaded = ElementLoaded(name: string, position: Point)

  /** What a load reads: the header and the names that follow it. */
  datatype Decoded = Decoded(size: Size, names: seq<string>)

  function Strs(names: seq<string>): (ts: seq<Token>)
    ensures |ts| == |names|
    ensures forall i :: 0 <= i < |names| ==> ts[i] == Str(names[i])
  {
    seq(|names|, i requires 0 <= i < |names| => Str(names[i]))
  }

  lemma StrsAppend(a: seq<string>, b: seq<string>)
    ensures Strs(a + b) == Strs(a) + Strs(b)
  {
  }

  /** What `save` writes: width, height, then the names. */
  function Encode(size: Size, names: seq<string>): (ts: seq<Token>)
    ensures |ts| == 2 + |names|
    ensures ts[0] == Num(size.width) && ts[1] == Num(size.height)
    ensures ts[2..] == Strs(names)
  {
    [Num(size.width), Num(size.height)] + Strs(names)
  }

  /** The names of a row, left to right. */
  function RowNames(row: seq<ElementDesc>): (ns: seq<string>)
    ensures |ns| == |row|
    ensures forall c :: 0 <= c < |row| ==> ns[c] == row[c].name
  {
    seq(|row|, c requires 0 <= c < |row| => row[c].name)
  }

  /** The names of a grid in row-major order: row 0 first, each row left to right. */
  function NamesOf(g: Grid): seq<string>
  {
    if g == [] then [] else NamesOf(g[..|g| - 1]) + RowNames(g[|g| - 1])
  }

  lemma {:induction false} NamesOfLength(g: Grid, w: nat, h: nat)
    requires IsGrid(g, w, h)
    ensures |NamesOf(g)| == w * h
  {
    if h > 0 {
      NamesOfLength(g[..h - 1], w, h - 1);
      assert w * h == w * (h - 1) + w;
    }
  }

  /** Cell (row r, column c) of a w-by-h grid is written at position r * w + c. */
  lemma {:induction false} NamesOfAt(g: Grid, w: nat, h: nat, r: nat, c: nat)
    requires IsGrid(g, w, h) && r < h && c < w
    ensures |NamesOf(g)| == w * h && RowMajorIndex(w, r, c) < |NamesOf(g)|
    ensures NamesOf(g)[RowMajorIndex(w, r, c)] == g[r][c].name
  {
    var init := g[..h - 1];
    assert IsGrid(init, w, h - 1);
    assert NamesOf(g) == NamesOf(init) + RowNames(g[h - 1]);
    NamesOfLength(init, w, h - 1);
    RowMajorRowBounds(w, h - 1);
    RowMajorIndexBound(w, h, r, c);
    if r < h - 1 {
      NamesOfAt(init, w, h - 1, r, c);
      RowMajorIndexBound(w, h - 1, r, c);
    } else {
      assert RowMajorIndex(w, r, c) == w * (h - 1) + c;
    }
  }

  /**
    One read of a size: a number token, or, when the stream is exhausted or
    holds something else, 0 with the stream treated as read past its end.
   */
  function ReadNum(ts: seq<Token>): (r: (nat, seq<Token>))
    ensures |ts| > 0 && ts[0].Num? ==> [Num(r.0)] + r.1 == ts
    ensures !(|ts| > 0 && ts[0].Num?) ==> r == (0, [])
  {
    if |ts| > 0 && ts[0].Num? then (ts[0].n, ts[1..]) else (0, [])
  }

  /** One read of a name, yielding "" once the stream is exhausted or corrupt. */
  function ReadStr(ts: seq<Token>): (r: (string, seq<Token>))
    ensures |ts| > 0 && ts[0].Str? ==> [Str(r.0)] + r.1 == ts
    ensures !(|ts| > 0 && ts[0].Str?) ==> r == ("", [])
  {
    if |ts| > 0 && ts[0].Str? then (ts[0].s, ts[1..]) else ("", [])
  }

  /** k successive name reads: the names in reading order and what is left of the stream. */
  function ReadStrs(ts: seq<Token>, k: nat): (res: (seq<string>, seq<Token>))
    ensures |res.0| == k
  {
    if k == 0 then ([], ts)
    else
      var (names, rest) := ReadStrs(ts, k - 1);
      var (s, rest') := ReadStr(rest);
      (names + [s], rest')
  }

  /** What `load` reads from a stream: width, height, then width * height names. */
  function Decode(ts: seq<Token>): (d: Decoded)
    ensures |d.names| == d.size.width * d.size.height
  {
    var (w, afterWidth) := ReadNum(ts);
    var (h, afterHeight) := ReadNum(afterWidth);
    Decoded(Size(w, h), ReadStrs(afterHeight, w * h).0)
  }

  /** The grid `load` builds: cell [r][c] holds the (r * w + c)-th name, with no parameters. */
  function GridOfNames(w: nat, h: nat, names: seq<string>): (g: Grid)
    requires |names| == w * h
    ensures IsGrid(g, w, h)
  {
    seq(h, r requires 0 <= r < h =>
      seq(w, c requires 0 <= c < w =>
        RowMajorIndexBound(w, h, r, c);
        ElementDesc(names[RowMajorIndex(w, r, c)], map[])))
  }

  lemma GridOfNamesAt(w: nat, h: nat, names: seq<string>, r: nat, c: nat)
    requires |names| == w * h && r < h && c < w
    ensures RowMajorIndex(w, r, c) < |names|
    ensures GridOfNames(w, h, names)[r][c] == ElementDesc(names[RowMajorIndex(w, r, c)], map[])
  {
    RowMajorIndexBound(w, h, r, c);
  }

  /** The grid while `load` runs: the cells already read hold their names, the others are blank. */
  function GridBeingLoaded(w: nat, h: nat, read: seq<string>): (g: Grid)
    ensures IsGrid(g, w, h)
  {
    seq(h, r requires 0 <= r < h =>
      seq(w, c requires 0 <= c < w =>
        if RowMajorIndex(w, r, c) < |read| then ElementDesc(read[RowMajorIndex(w, r, c)], map[]) else Blank))
  }

  lemma GridBeingLoadedStart(w: nat, h: nat)
    ensures GridBeingLoaded(w, h, []) == BlankGrid(w, h)
  {
    var g, b := GridBeingLoaded(w, h, []), BlankGrid(w, h);
    forall r | 0 <= r < h ensures g[r] == b[r] {
    }
  }

  /** Storing the next name read into the next cell in row-major order. */
  lemma GridBeingLoadedStep(w: nat, h: nat, read: seq<string>, r0: nat, c0: nat, s: string)
    requires r0 < h && c0 < w && |read| == RowMajorIndex(w, r0, c0)
    ensures var g := GridBeingLoaded(w, h, read);
      g[r0 := g[r0][c0 := ElementDesc(s, map[])]] == GridBeingLoaded(w, h, read + [s])
  {
    var g := GridBeingLoaded(w, h, read);
    var g' := GridBeingLoaded(w, h, read + [s]);
    var u := g[r0 := g[r0][c0 := ElementDesc(s, map[])]];
    forall r | 0 <= r < h ensures u[r] == g'[r] {
      forall c | 0 <= c < w ensures u[r][c] == g'[r][c] {
        if r != r0 || c != c0 {
          RowMajorDivMod(w, r, c);
          RowMajorDivMod(w, r0, c0);
          assert RowMajorIndex(w, r, c) != |read|;
        }
      }
    }
  }

  /** Once all w * h names are read, the grid is the one the names describe. */
  lemma GridBeingLoadedDone(w: nat, h: nat, read: seq<string>)
    requires |read| == w * h
    ensures GridBeingLoaded(w, h, read) == GridOfNames(w, h, read)
  {
    var g := GridBeingLoaded(w, h, read);
    var g' := GridOfNames(w, h, read);
    forall r | 0 <= r < h ensures g[r] == g'[r] {
      forall c | 0 <= c < w ensures g[r][c] == g'[r][c] {
        GridOfNamesAt(w, h, read, r, c);
      }
    }
  }

  /** Emitting the notification for the next cell in row-major order. */
  lemma LoadEventsStep(w: nat, read: seq<string>, r0: nat, c0: nat, s: string)
    requires c0 < w && |read| == RowMajorIndex(w, r0, c0)
    ensures LoadEvents(w, read) + [ElementLoaded(s, Point(c0, r0))] == LoadEvents(w, read + [s])
  {
    RowMajorDivMod(w, r0, c0);
  }

  /** The notifications `load` emits: the k-th name read, at column k % w of row k / w. */
  function LoadEvents(w: nat, names: seq<string>): (ev: seq<Loaded>)
    requires w > 0 || names == []
    ensures |ev| == |names|
    ensures forall k :: 0 <= k < |names| ==> ev[k].name == names[k]
  {
    seq(|names|, k requires 0 <= k < |names| => ElementLoaded(names[k], Point(k % w, k / w)))
  }

  /** The notification for cell (row r, column c) is the (r * w + c)-th one and carries (c, r). */
  lemma LoadEventAt(w: nat, h: nat, names: seq<string>, r: nat, c: nat)
    requires |names| == w * h && r < h && c < w
    ensures RowMajorIndex(w, r, c) < |names|
    ensures LoadEvents(w, names)[RowMajorIndex(w, r, c)]
         == ElementLoaded(names[RowMajorIndex(w, r, c)], Point(c, r))
  {
    RowMajorIndexBound(w, h, r, c);
    RowMajorDivMod(w, r, c);
  }

  /** The same grid with every cell's parameters dropped: what survives a save and a load. */
  function WithoutParameters(g: Grid): (g': Grid)
    ensures |g'| == |g|
    ensures forall r :: 0 <= r < |g| ==> |g'[r]| == |g[r]|
    ensures forall r, c :: 0 <= r < |g| && 0 <= c < |g[r]| ==>
      g'[r][c] == ElementDesc(g[r][c].name, map[])
  {
    seq(|g|, r requires 0 <= r < |g| =>
      seq(|g[r]|, c requires 0 <= c < |g[r]| => ElementDesc(g[r][c].name, map[])))
  }

  /** Reading k names back from k written names returns them and the rest of the stream. */
  lemma {:induction false} ReadStrsOfStrs(names: seq<string>, rest: seq<Token>, k: nat)
    requires k <= |names|
    ensures ReadStrs(Strs(names) + rest, k) == (names[..k], Strs(names[k..]) + rest)
  {
    if k > 0 {
      ReadStrsOfStrs(names, rest, k - 1);
      var left := Strs(names[k - 1..]) + rest;
      assert left[0] == Str(names[k - 1]);
      assert left[1..] == Strs(names[k..]) + rest;
      assert names[..k - 1] + [names[k - 1]] == names[..k];
    }
  }

  /** Decoding what was encoded gives back the size and every name, in order. */
  lemma {:induction false} DecodeEncode(size: Size, names: seq<string>)
    requires |names| == size.width * size.height
    ensures Decode(Encode(size, names)) == Decoded(size, names)
  {
    var ts := Encode(size, names);
    assert ts[1..] == [Num(size.height)] + Strs(names);
    assert ([Num(size.height)] + Strs(names))[1..] == Strs(names);
    assert ReadNum(ts) == (size.width, [Num(size.height)] + Strs(names));
    assert ReadNum([Num(size.height)] + Strs(names)) == (size.height, Strs(names));
    ReadStrsOfStrs(names, [], |names|);
    assert Strs(names) + [] == Strs(names);
  }

  /**
    Loading the stream saved from a rectangular grid rebuilds the grid with its
    size and every name in place, and with every parameter map empty.
   */
  lemma {:induction false} SaveLoadRoundTrip(g: Grid)
    requires Rectangular(g)
    ensures var d := Decode(Encode(SizeOf(g), NamesOf(g)));
      d.size == SizeOf(g) && GridOfNames(d.size.width, d.size.height, d.names) == WithoutParameters(g)
  {
    var size := SizeOf(g);
    NamesOfLength(g, size.width, size.height);
    DecodeEncode(size, NamesOf(g));
    var g' := GridOfNames(size.width, size.height, NamesOf(g));
    forall r | 0 <= r < size.height ensures g'[r] == WithoutParameters(g)[r] {
      forall c | 0 <= c < size.width ensures g'[r][c] == WithoutParameters(g)[r][c] {
        GridOfNamesAt(size.width, size.height, NamesOf(g), r, c);
        NamesOfAt(g, size.width, size.height, r, c);
      }
    }
  }

  /** A stream cut off after some of its names: every name past the end is read as "". */
  lemma {:induction false} ReadShort(names: seq<string>, k: nat)
    requires k >= |names|
    ensures ReadStrs(Strs(names), k) == (names + seq(k - |names|, _ => ""), [])
  {
    if k == |names| {
      ReadStrsOfStrs(names, [], k);
      assert Strs(names) + [] == Strs(names);
      assert names[..k] == names + seq(0, _ => "");
    } else {
      ReadShort(names, k - 1);
      assert names + seq(k - |names|, _ => "") == names + seq(k - 1 - |names|, _ => "") + [""];
    }
  }

  /**
    Loading a file truncated after its first names: the header is read as
    written, the names that are there come first and every missing one is "".
   */
  lemma {:induction false} DecodeTruncated(size: Size, names: seq<string>)
    requires |names| <= size.width * size.height
    ensures Decode(Encode(size, names))
         == Decoded(size, names + seq(size.width * size.height - |names|, _ => ""))
  {
    var ts := Encode(size, names);
    assert ts[1..] == [Num(size.height)] + Strs(names);
    assert ([Num(size.height)] + Strs(names))[1..] == Strs(names);
    assert ReadNum(ts) == (size.width, [Num(size.height)] + Strs(names));
    assert ReadNum([Num(size.height)] + Strs(names)) == (size.height, Strs(names));
    ReadShort(names, size.width * size.height);
  }

  /** A stream with no name token left, being exhausted or corrupt: every name is read as "". */
  lemma {:induction false} ReadPastEnd(ts: seq<Token>, k: nat)
    requires forall i :: 0 <= i < |ts| ==> ts[i].Num?
    ensures ReadStrs(ts, k).0 == seq(k, _ => "")
  {
    if k > 0 {
      ReadPastEnd(ts, k - 1);
      var rest := ReadStrs(ts, k - 1).1;
      assert rest == ts || rest == [] by { ReadStrsRestSuffix(ts, k - 1); }
    }
  }

  lemma {:induction false} ReadStrsRestSuffix(ts: seq<Token>, k: nat)
    requires forall i :: 0 <= i < |ts| ==> ts[i].Num?
    ensures ReadStrs(ts, k).1 == ts || ReadStrs(ts, k).1 == []
  {
    if k > 0 {
      ReadStrsRestSuffix(ts, k - 1);
    }
  }
}
