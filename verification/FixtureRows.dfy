/** Fixture rows as the loaders hold them: mutable maps shared by reference.  Extending a row copies the base and
    merges into the copy, so that no row held elsewhere is spoiled. */
module FixtureRows {
  import opened Wrappers
  import opened FixtureRefs
  import opened FixtureGraph

  class Row {
    var cells: Cells

    constructor (cells: Cells)
      ensures this.cells == cells
    {
      this.cells := cells;
    }
  }

  /** What the stored rows hold at present. */
  ghost function View(refs: map<string, Row>): Refs
    reads refs.Values
  {
    map n | n in refs :: refs[n].cells
  }

  ghost function CellsOf(rows: seq<Row>): (s: seq<Cells>)
    reads rows
    ensures |s| == |rows| && forall i | 0 <= i < |rows| :: s[i] == rows[i].cells
  {
    seq(|rows|, i requires 0 <= i < |rows| reads rows => rows[i].cells)
  }

  /** The same names stand for the same objects. */
  ghost predicate Kept(refs: map<string, Row>, refs': map<string, Row>) {
    forall n | n in refs :: n in refs' && refs'[n] == refs[n]
  }

  // ---------- extending a row ----------

  /** A copy of the stored row without its markers; null for an undefined reference. */
  method ResolveReference(refs: map<string, Row>, name: string) returns (copy: Row?)
    ensures copy == null <==> name !in refs
    ensures copy != null ==> fresh(copy) && copy.cells == Strip(refs[name].cells)
  {
    if name !in refs {
      return null;
    }
    var target := refs[name];
    var c := new Row(map[]);
    var todo := target.cells.Keys;
    while todo != {}
      invariant todo <= target.cells.Keys
      invariant c.cells == map k | k in target.cells && k !in todo && !IsMarker(k) :: target.cells[k]
      decreases todo
    {
      var k :| k in todo;
      if !IsMarker(k) {
        c.cells := c.cells[k := target.cells[k]];
      }
      todo := todo - {k};
    }
    copy := c;
  }

  /** Writes the columns of one row into another, in place. */
  method Merge(base: Row, own: Row)
    requires base != own
    modifies base
    ensures base.cells == old(base.cells) + own.cells
  {
    var todo := own.cells.Keys;
    while todo != {}
      invariant todo <= own.cells.Keys
      invariant base.cells == old(base.cells) + map k | k in own.cells && k !in todo :: own.cells[k]
      decreases todo
    {
      var k :| k in todo;
      base.cells := base.cells[k := own.cells[k]];
      todo := todo - {k};
    }
    assert (map k | k in own.cells && k !in todo :: own.cells[k]) == own.cells;
  }

  /** The row itself, or if it extends another a new row with both; null for an undefined reference.  No row that
      existed before is written to. */
  method Extended(refs: map<string, Row>, row: Row) returns (merged: Row?)
    requires WellTyped(row.cells)
    ensures merged == null <==> Flatten(View(refs), row.cells).None?
    ensures merged != null ==> Flatten(View(refs), row.cells) == Some(merged.cells)
    ensures merged != null ==> if EXTEND in row.cells then fresh(merged) else merged == row
  {
    if EXTEND !in row.cells {
      return row;
    }
    merged := ResolveReference(refs, row.cells[EXTEND].text);
    if merged != null {
      Merge(merged, row);
    }
  }

  // ---------- tables ----------

  datatype LoadedTable = LoadedTable(name: string, rows: array<Row>)

  /** Rows as they are read from a file, every one a new object. */
  method NewRows(raws: seq<Cells>) returns (rows: array<Row>)
    ensures fresh(rows) && CellsOf(rows[..]) == raws
  {
    var none := new Row(map[]);
    rows := new Row[|raws|](_ => none);
    for i := 0 to |raws|
      invariant fresh(rows) && forall j | 0 <= j < i :: rows[j].cells == raws[j]
    {
      var row := new Row(raws[i]);
      rows[i] := row;
    }
    assert CellsOf(rows[..]) == raws;
  }

  /** The table holds the rows as written. */
  ghost predicate Holds(t: LoadedTable, source: SourceTable)
    reads t.rows, t.rows[..]
  {
    t.name == source.name && source.rows == Some(CellsOf(t.rows[..]))
  }

  /** The table holds, for each row as written, the row it means. */
  ghost predicate HoldsMeant(h: seq<Def>, t: LoadedTable, source: SourceTable)
    reads t.rows, t.rows[..]
  {
    && t.name == source.name && source.rows.Some? && |source.rows.value| == t.rows.Length
    && forall i | 0 <= i < t.rows.Length :: Means(h, source.rows.value[i], t.rows[i].cells)
  }

  ghost function Arrays(tables: seq<LoadedTable>): set<array<Row>> {
    set i | 0 <= i < |tables| :: tables[i].rows
  }

  ghost function RowsIn(tables: seq<LoadedTable>): set<Row>
    reads Arrays(tables)
  {
    set i, j | 0 <= i < |tables| && 0 <= j < tables[i].rows.Length :: tables[i].rows[j]
  }

  ghost predicate Apart(tables: seq<LoadedTable>) {
    forall i, j | 0 <= i < j < |tables| :: tables[i].rows != tables[j].rows
  }

  ghost predicate HoldAll(tables: seq<LoadedTable>, source: seq<SourceTable>)
    reads Arrays(tables), RowsIn(tables)
  {
    |tables| == |source| && Apart(tables) && forall i | 0 <= i < |tables| :: Holds(tables[i], source[i])
  }

  // ---------- the references a table adds ----------

  /** The named rows among those the database gave back, in order. */
  ghost function NamedDefs(raws: seq<Cells>, returned: int -> bool): seq<Def> {
    if raws == [] then []
    else
      var k := |raws| - 1;
      NamedDefs(raws[..k], returned) + NamedDef(raws[k], returned(k))
  }

  ghost function NamedDef(raw: Cells, returned: bool): seq<Def> {
    if returned && NAME in raw && raw[NAME].Text? then [Def(raw[NAME].text, raw)] else []
  }

  /** A table goes in exactly when every base is known, the database takes the rows, and no name is taken. */
  ghost predicate TableLoads(h: seq<Def>, raws: seq<Cells>, accepted: bool, returned: int -> bool) {
    && (forall i | 0 <= i < |raws| :: BaseKnown(h, raws[i]))
    && accepted && AllNamedOnce(h + NamedDefs(raws, returned))
  }

  ghost function RowsAt(t: SourceTable): seq<Cells> {
    if t.rows.Some? then t.rows.value else []
  }

  /** The references of all tables. */
  ghost function AllNamed(source: seq<SourceTable>, returned: int -> int -> bool): seq<Def> {
    if source == [] then []
    else
      var k := |source| - 1;
      AllNamed(source[..k], returned) + NamedDefs(RowsAt(source[k]), returned(k))
  }

  /** Every table goes in after those before it; a table without rows is skipped. */
  ghost predicate AllLoad(h: seq<Def>, source: seq<SourceTable>, accepted: int -> bool, returned: int -> int -> bool) {
    forall k | 0 <= k < |source| && RowsAt(source[k]) != [] ::
      TableLoads(h + AllNamed(source[..k], returned), RowsAt(source[k]), accepted(k), returned(k))
  }

  lemma NamedDefsSnoc(raws: seq<Cells>, returned: int -> bool, i: nat)
    requires i < |raws|
    ensures NamedDefs(raws[..i + 1], returned) == NamedDefs(raws[..i], returned) + NamedDef(raws[i], returned(i))
  {
    assert raws[..i + 1][..i] == raws[..i];
  }

  lemma {:induction false} NamedDefsPrefix(raws: seq<Cells>, returned: int -> bool, i: nat)
    requires i <= |raws|
    ensures NamedDefs(raws[..i], returned) <= NamedDefs(raws, returned)
    decreases |raws|
  {
    if i == |raws| {
      assert raws[..i] == raws;
    } else {
      var k := |raws| - 1;
      NamedDefsPrefix(raws[..k], returned, i);
      assert raws[..k][..i] == raws[..i];
    }
  }

  lemma NamedTwice(h: seq<Def>, d: Def, all: seq<Def>)
    requires Named(h, d.name) && h + [d] <= all
    ensures !AllNamedOnce(all)
  {
    var i :| 0 <= i < |h| && h[i].name == d.name;
    assert all[i] == (h + [d])[i] && all[|h|] == (h + [d])[|h|];
  }

  lemma AllNamedSnoc(source: seq<SourceTable>, returned: int -> int -> bool, k: nat)
    requires k < |source|
    ensures AllNamed(source[..k + 1], returned) ==
            AllNamed(source[..k], returned) + NamedDefs(RowsAt(source[k]), returned(k))
  {
    assert source[..k + 1][..k] == source[..k];
  }

  lemma AllLoadNothing(h: seq<Def>, source: seq<SourceTable>, accepted: int -> bool, returned: int -> int -> bool)
    ensures source[..0] == [] && AllLoad(h, [], accepted, returned) && AllNamed([], returned) == []
  {
  }

  lemma AllLoadSnoc(h: seq<Def>, source: seq<SourceTable>, accepted: int -> bool, returned: int -> int -> bool, k: nat)
    requires k < |source|
    ensures var rows := RowsAt(source[k]);
            var loads := rows == [] || TableLoads(h + AllNamed(source[..k], returned), rows, accepted(k), returned(k));
            && (AllLoad(h, source[..k], accepted, returned) && loads ==>
                  AllLoad(h, source[..k + 1], accepted, returned))
            && (AllLoad(h, source, accepted, returned) ==> loads)
  {
    hide TableLoads, AllNamed, RowsAt;
    var some, more := source[..k], source[..k + 1];
    if AllLoad(h, some, accepted, returned) {
      forall j | 0 <= j < k && RowsAt(more[j]) != []
        ensures TableLoads(h + AllNamed(more[..j], returned), RowsAt(more[j]), accepted(j), returned(j))
      {
        assert more[j] == some[j] && more[..j] == some[..j];
      }
      assert more[..k] == some;
    }
  }
}
