/** Geometry of the annotation button grid. The Qt version lays the names out
    in sorted order, four to a row; the tkinter version keeps a (row, column)
    cursor that moves one cell per accepted save and wraps after column 3. */
module Grid {
  import opened Text

  /** (row, column) of a grid cell. */
  type Pos = (nat, nat)

  /** One annotation button: the name it shows and the cell it occupies. */
  datatype Cell = Cell(name: string, pos: Pos)

  const Columns: nat := 4

  /** Row-major order on cells. */
  predicate Before(p: Pos, q: Pos)
  {
    p.0 < q.0 || (p.0 == q.0 && p.1 < q.1)
  }

  /** `(index // 4, index % 4)`: the cell of the index-th button. */
  function Position(index: nat): (p: Pos)
    ensures p.1 < Columns
    ensures index == Columns * p.0 + p.1
  {
    (index / Columns, index % Columns)
  }

  /** A column below 4 and a row/column pair that decompose `index` can only be `Position(index)`. */
  lemma PositionUnique(index: nat, p: Pos)
    requires p.1 < Columns && index == Columns * p.0 + p.1
    ensures p == Position(index)
  {
  }

  /** Earlier indices get earlier cells in row-major order; in particular no two indices share a cell. */
  lemma PositionOrder(i: nat, j: nat)
    requires i < j
    ensures Before(Position(i), Position(j))
  {
  }

  function NamesOf(cells: seq<Cell>): set<string>
  {
    set i | 0 <= i < |cells| :: cells[i].name
  }

  lemma NamesOfAppend(cells: seq<Cell>, cell: Cell)
    ensures NamesOf(cells + [cell]) == NamesOf(cells) + {cell.name}
  {
    var grown := cells + [cell];
    forall x | x in NamesOf(grown) ensures x in NamesOf(cells) + {cell.name} {
      var i :| 0 <= i < |grown| && grown[i].name == x;
      if i < |cells| { assert cells[i].name == x; }
    }
    forall x | x in NamesOf(cells) ensures x in NamesOf(grown) {
      var i :| 0 <= i < |cells| && cells[i].name == x;
      assert grown[i].name == x;
    }
    assert grown[|cells|].name == cell.name;
  }

  /** The buttons `update_buttons` creates for the store's names: sorted by
      name, the i-th at `Position(i)`, one per name. */
  ghost predicate IsLayoutOf(cells: seq<Cell>, names: set<string>)
  {
    && (forall i :: 0 <= i < |cells| ==> cells[i].pos == Position(i))
    && (forall i, j :: 0 <= i < j < |cells| ==> Less(cells[i].name, cells[j].name))
    && NamesOf(cells) == names
  }

  lemma {:induction false} DistinctNamesCount(cells: seq<Cell>)
    requires forall i, j :: 0 <= i < j < |cells| ==> Less(cells[i].name, cells[j].name)
    ensures |NamesOf(cells)| == |cells|
  {
    if cells != [] {
      var init := cells[..|cells| - 1];
      var last := cells[|cells| - 1];
      DistinctNamesCount(init);
      assert NamesOf(cells) == NamesOf(init) + {last.name};
      if last.name in NamesOf(init) {
        var i :| 0 <= i < |init| && init[i].name == last.name;
        LessIrreflexive(last.name);
      }
    }
  }

  /** The grid of the sorted names has one button per name, every column is
      below 4, and the cells are pairwise distinct and row-major in name order. */
  lemma LayoutProperties(cells: seq<Cell>, names: set<string>)
    requires IsLayoutOf(cells, names)
    ensures |cells| == |names|
    ensures forall i :: 0 <= i < |cells| ==> cells[i].pos.1 < Columns
    ensures forall i, j :: 0 <= i < j < |cells| ==>
      Before(cells[i].pos, cells[j].pos) && cells[i].pos != cells[j].pos
  {
    DistinctNamesCount(cells);
    forall i, j | 0 <= i < j < |cells|
      ensures Before(cells[i].pos, cells[j].pos) && cells[i].pos != cells[j].pos
    {
      PositionOrder(i, j);
    }
  }

  function NameList(cells: seq<Cell>): seq<string>
  {
    seq(|cells|, i requires 0 <= i < |cells| => cells[i].name)
  }

  /** Two strictly sorted sequences with the same elements are the same sequence. */
  lemma {:induction false} SortedUnique(a: seq<string>, b: seq<string>)
    requires Sorted(a) && Sorted(b)
    requires forall x :: x in a <==> x in b
    ensures a == b
    decreases |a|
  {
    assert a != [] ==> a[0] in b;
    assert b != [] ==> b[0] in a;
    if a != [] && b != [] {
      if a[0] != b[0] {
        assert a[0] in a && b[0] in b;
        var i :| 0 <= i < |b| && b[i] == a[0];
        var j :| 0 <= j < |a| && a[j] == b[0];
        assert i > 0 && j > 0;
        LessAsymmetric(b[0], a[0]);
      }
      forall x ensures x in a[1..] <==> x in b[1..] {
        if x in a[1..] {
          var k :| 0 <= k < |a[1..]| && a[1..][k] == x;
          assert Less(a[0], x) by { assert a[k + 1] == x; }
          LessIrreflexive(x);
          assert x in b;
          assert b == [b[0]] + b[1..];
        }
        if x in b[1..] {
          var k :| 0 <= k < |b[1..]| && b[1..][k] == x;
          assert Less(b[0], x) by { assert b[k + 1] == x; }
          LessIrreflexive(x);
          assert x in a;
          assert a == [a[0]] + a[1..];
        }
      }
      SortedUnique(a[1..], b[1..]);
      assert a == [a[0]] + a[1..] && b == [b[0]] + b[1..];
    }
  }

  /** The layout is a function of the name set alone: stable and deterministic. */
  lemma LayoutUnique(c1: seq<Cell>, c2: seq<Cell>, names: set<string>)
    requires IsLayoutOf(c1, names) && IsLayoutOf(c2, names)
    ensures c1 == c2
  {
    var n1, n2 := NameList(c1), NameList(c2);
    forall x ensures x in n1 <==> x in n2 {
      if x in n1 {
        var i :| 0 <= i < |n1| && n1[i] == x;
        assert x in NamesOf(c1);
        var j :| 0 <= j < |c2| && c2[j].name == x;
        assert n2[j] == x;
      }
      if x in n2 {
        var i :| 0 <= i < |n2| && n2[i] == x;
        assert x in NamesOf(c2);
        var j :| 0 <= j < |c1| && c1[j].name == x;
        assert n1[j] == x;
      }
    }
    SortedUnique(n1, n2);
    assert |c1| == |c2|;
    forall i | 0 <= i < |c1| ensures c1[i] == c2[i] {
      assert n1[i] == n2[i];
    }
  }

  /** One step of the tkinter cursor: next column, wrapping to the next row after column 3. */
  function Advance(cursor: Pos): (next: Pos)
    requires cursor.1 < Columns
    ensures next.1 < Columns
    ensures Before(cursor, next)
  {
    var column := cursor.1 + 1;
    if column > 3 then (cursor.0 + 1, 0) else (cursor.0, column)
  }

  /** The cursor after the n-th save stands where the Qt layout puts the n-th button. */
  lemma AdvancePosition(n: nat)
    ensures Advance(Position(n)) == Position(n + 1)
  {
    var p := Position(n);
    PositionUnique(n + 1, Advance(p));
  }

  /** Cursor after `saves` accepted saves since the last reset to (0, 0). */
  function CursorAfter(saves: nat): (p: Pos)
    ensures p.1 < Columns
  {
    if saves == 0 then (0, 0) else Advance(CursorAfter(saves - 1))
  }

  lemma {:induction false} CursorAfterIsPosition(saves: nat)
    ensures CursorAfter(saves) == Position(saves)
  {
    if saves > 0 {
      CursorAfterIsPosition(saves - 1);
      AdvancePosition(saves - 1);
    }
  }

  /** Later saves leave the cursor strictly later in row-major order. */
  lemma CursorOrder(a: nat, b: nat)
    requires a < b
    ensures Before(CursorAfter(a), CursorAfter(b))
  {
    CursorAfterIsPosition(a);
    CursorAfterIsPosition(b);
    PositionOrder(a, b);
  }

  /** Cells strictly increasing in row-major order and all before `cursor`. */
  ghost predicate PlacedBefore(cells: seq<Cell>, cursor: Pos)
  {
    && (forall i, j {:trigger Before(cells[i].pos, cells[j].pos)} :: 0 <= i < j < |cells| ==> Before(cells[i].pos, cells[j].pos))
    && (forall i :: 0 <= i < |cells| ==> Before(cells[i].pos, cursor))
  }

  /** A button placed at the cursor, with the cursor then advanced, keeps the cells in placement order. */
  lemma PlaceAtCursor(cells: seq<Cell>, cursor: Pos, name: string)
    requires cursor.1 < Columns && PlacedBefore(cells, cursor)
    ensures PlacedBefore(cells + [Cell(name, cursor)], Advance(cursor))
  {
  }

  /** Index of the first cell showing `name`. */
  function FirstNamed(cells: seq<Cell>, name: string): (r: Option<nat>)
    ensures r.Some? ==> r.value < |cells| && cells[r.value].name == name
    ensures r.Some? ==> forall k :: 0 <= k < r.value ==> cells[k].name != name
    ensures r.None? <==> name !in NamesOf(cells)
  {
    if cells == [] then None
    else if cells[0].name == name then Some(0)
    else
      match FirstNamed(cells[1..], name)
      case None =>
        assert NamesOf(cells) == {cells[0].name} + NamesOf(cells[1..]) by {
          forall x | x in NamesOf(cells) ensures x in {cells[0].name} + NamesOf(cells[1..]) {
            var i :| 0 <= i < |cells| && cells[i].name == x;
            if i > 0 { assert cells[1..][i - 1].name == x; }
          }
        }
        None
      case Some(i) => Some(i + 1)
  }

  /** The first button showing `name` destroyed; every other button keeps its order. */
  function RemoveFirstNamed(cells: seq<Cell>, name: string): (r: seq<Cell>)
    ensures name !in NamesOf(cells) ==> r == cells
    ensures name in NamesOf(cells) ==>
      var i := FirstNamed(cells, name).value;
      |r| == |cells| - 1 &&
      forall k :: 0 <= k < |r| ==> r[k] == cells[if k < i then k else k + 1]
  {
    match FirstNamed(cells, name)
    case None => cells
    case Some(i) => cells[..i] + cells[i + 1..]
  }

  /** Destroying the first button showing `name` keeps a button for every other name. */
  lemma RemoveKeepsOtherNames(cells: seq<Cell>, name: string)
    ensures |RemoveFirstNamed(cells, name)| <= |cells|
    ensures forall k :: k in NamesOf(cells) && k != name ==> k in NamesOf(RemoveFirstNamed(cells, name))
  {
    var r := RemoveFirstNamed(cells, name);
    if name in NamesOf(cells) {
      var i := FirstNamed(cells, name).value;
      forall k | k in NamesOf(cells) && k != name ensures k in NamesOf(r) {
        var j :| 0 <= j < |cells| && cells[j].name == k;
        assert j != i;
        var j' := if j < i then j else j - 1;
        assert r[j'] == cells[j];
      }
    }
  }

  lemma RemovePreservesPlacement(cells: seq<Cell>, name: string, cursor: Pos)
    requires PlacedBefore(cells, cursor)
    ensures PlacedBefore(RemoveFirstNamed(cells, name), cursor)
  {
    var r := RemoveFirstNamed(cells, name);
    if name in NamesOf(cells) {
      var i := FirstNamed(cells, name).value;
      forall a, b | 0 <= a < b < |r| ensures Before(r[a].pos, r[b].pos) {
        var a', b' := (if a < i then a else a + 1), (if b < i then b else b + 1);
        assert a' < b';
      }
    }
  }
}
