/** Optional values: a Qt string that may be null, a read that may fail. */
module Wrappers {
  datatype Option<T> = None | Some(value: T)
}

/**
  The catalog entries a user can place and the per-cell description the level
  stores for a placed element.
 */
module Elements {

  /** A declared parameter of a catalog element: its name and default value. */
  datatype Parameter = Parameter(name: string, default: string)

  /** A catalog element as `add` uses it: its name and its declared parameters, in order. */
  datatype Element = Element(name: string, parameters: seq<Parameter>)

  /** One grid cell: the placed element's name ("" = nothing placed) and its parameter values. */
  datatype ElementDesc = ElementDesc(name: string, parameters: map<string, string>)

  /** The cell `init` fills the grid with: a null name and no parameters. */
  const Blank: ElementDesc := ElementDesc("", map[])

  /** The parameter names an element declares. */
  function DeclaredNames(ps: seq<Parameter>): set<string>
  {
    set i | 0 <= i < |ps| :: ps[i].name
  }

  /**
    The hash `add` fills by walking the declared parameters in order and
    assigning each name its default, so a later duplicate name overwrites an
    earlier one.
   */
  function Defaults(ps: seq<Parameter>): (m: map<string, string>)
    ensures forall k :: k in m ==> exists i :: 0 <= i < |ps| && ps[i].name == k && ps[i].default == m[k]
  {
    if ps == [] then map[]
    else Defaults(ps[..|ps| - 1])[ps[|ps| - 1].name := ps[|ps| - 1].default]
  }

  /** The hash has exactly one key per declared parameter name. */
  lemma {:induction false} DefaultsKeys(ps: seq<Parameter>)
    ensures Defaults(ps).Keys == DeclaredNames(ps)
  {
    if ps != [] {
      var init := ps[..|ps| - 1];
      DefaultsKeys(init);
      forall k | k in DeclaredNames(ps) ensures k in Defaults(ps).Keys {
        var i :| 0 <= i < |ps| && ps[i].name == k;
        if i < |ps| - 1 {
          assert init[i].name == k;
        }
      }
      forall k | k in Defaults(ps).Keys ensures k in DeclaredNames(ps) {
        if k != ps[|ps| - 1].name {
          var i :| 0 <= i < |init| && init[i].name == k;
          assert ps[i].name == k;
        }
      }
    }
  }

  /** The value of a name is the default of the last parameter declared under that name. */
  lemma {:induction false} DefaultsLastWins(ps: seq<Parameter>, i: nat)
    requires i < |ps|
    requires forall j :: i < j < |ps| ==> ps[j].name != ps[i].name
    ensures ps[i].name in Defaults(ps) && Defaults(ps)[ps[i].name] == ps[i].default
  {
    if i < |ps| - 1 {
      var init := ps[..|ps| - 1];
      assert forall j :: i < j < |init| ==> init[j].name != init[i].name by {
        forall j | i < j < |init| ensures init[j].name != init[i].name {
          assert init[j] == ps[j];
        }
      }
      DefaultsLastWins(init, i);
    }
  }

  /**
    The description `add` stores for a placed element: its name, and every
    declared parameter at its default. It depends on the element alone, so no
    parameter of a previous occupant survives.
   */
  function Placed(e: Element): (d: ElementDesc)
    ensures d.name == e.name
    ensures d.parameters.Keys == DeclaredNames(e.parameters)
  {
    DefaultsKeys(e.parameters);
    ElementDesc(e.name, Defaults(e.parameters))
  }
}

/** Positions, sizes and the rectangular grid of cells a level stores. */
module Grids {
  import opened Elements

  /** A QPoint: column x, row y. */
  datatype Point = Point(x: int, y: int)

  /** A QSize. Negative sizes are not modelled. */
  datatype Size = Size(width: nat, height: nat)

  /** The level's storage, indexed [row y][column x]. */
  type Grid = seq<seq<ElementDesc>>

  /** g has exactly h rows of exactly w cells each. */
  predicate IsGrid(g: Grid, w: nat, h: nat)
  {
    |g| == h && forall r :: 0 <= r < h ==> |g[r]| == w
  }

  /** The size read off the storage: the length of row 0 and the number of rows. */
  function SizeOf(g: Grid): Size
  {
    Size(if |g| > 0 then |g[0]| else 0, |g|)
  }

  /** The size of h > 0 rows of w cells each is (w, h); with no rows it is (0, 0). */
  lemma SizeOfGrid(g: Grid, w: nat, h: nat)
    requires IsGrid(g, w, h)
    ensures SizeOf(g) == if h > 0 then Size(w, h) else Size(0, 0)
  {
  }

  /** Every row is as long as row 0. */
  predicate Rectangular(g: Grid)
  {
    IsGrid(g, SizeOf(g).width, |g|)
  }

  predicate InRange(g: Grid, p: Point)
  {
    0 <= p.y < |g| && 0 <= p.x < |g[p.y]|
  }

  /** The grid `init` builds: h rows of w blank cells. */
  function BlankGrid(w: nat, h: nat): (g: Grid)
    ensures IsGrid(g, w, h) && Rectangular(g)
    ensures forall r, c :: 0 <= r < h && 0 <= c < w ==> g[r][c] == Blank
    ensures SizeOf(g) == if h > 0 then Size(w, h) else Size(0, 0)
  {
    seq(h, _ => seq(w, _ => Blank))
  }

  /** Position of cell (row r, column c) in a row-major enumeration of a grid w cells wide. */
  function RowMajorIndex(w: nat, r: nat, c: nat): nat
  {
    r * w + c
  }

  /** Row r starts at index w * r and ends where row r + 1 starts. */
  lemma RowMajorRowBounds(w: nat, r: nat)
    ensures RowMajorIndex(w, r, 0) == w * r
    ensures RowMajorIndex(w, r, w) == w * (r + 1)
  {
    assert w * (r + 1) == w * r + w;
  }

  lemma RowMajorIndexBound(w: nat, h: nat, r: nat, c: nat)
    requires r < h && c < w
    ensures RowMajorIndex(w, r, c) < w * h
  {
    assert r * w + c < r * w + w == (r + 1) * w <= h * w;
  }

  /** Row-major indices are a bijection: the column is the remainder and the row the quotient. */
  lemma RowMajorDivMod(w: nat, r: nat, c: nat)
    requires c < w
    ensures RowMajorIndex(w, r, c) % w == c && RowMajorIndex(w, r, c) / w == r
  {
    var k := r * w + c;
    var q, m := k / w, k % w;
    assert k == q * w + m && 0 <= m < w;
    if q < r {
      var d := r - q;
      assert d * w + c == m by { assert r * w == q * w + d * w; }
      MulAtLeast(d, w);
    } else if q > r {
      var d := q - r;
      assert d * w + m == c by { assert q * w == r * w + d * w; }
      MulAtLeast(d, w);
    }
  }

  lemma MulAtLeast(d: nat, w: nat)
    requires d >= 1
    ensures d * w >= w
  {
    assert d * w == (d - 1) * w + w;
  }
}
