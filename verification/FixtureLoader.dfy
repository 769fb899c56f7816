/** The loading of fixture files: a depth-first walk over `inherits` that mutates one context. */
module FixtureLoader {
  import opened Wrappers
  import opened FixtureRefs
  import opened FixtureGraph
  import opened FixtureRows

  ghost predicate WellTypedFixture(x: Fixture) {
    && (forall i | 0 <= i < |x.templates| :: WellTyped(x.templates[i].raw))
    && (forall i | 0 <= i < |x.tables| && x.tables[i].rows.Some? ::
          forall j | 0 <= j < |x.tables[i].rows.value| :: WellTyped(x.tables[i].rows.value[j]))
  }

  ghost predicate WellTypedWorld(w: World) {
    forall f | IsYaml(w, f) :: WellTypedFixture(w.files[f].fixture)
  }

  class LoadContext {
    var files: seq<string>
    var tables: seq<LoadedTable>
    var refs: map<string, Row>
    ghost var order: seq<string>
    ghost var history: seq<Def>

    constructor ()
      ensures files == [] && tables == [] && refs == map[] && order == [] && history == []
    {
      files, tables, refs, order, history := [], [], map[], [], [];
    }

    /** Every stored row, as it is now, means its chain of rows as written. */
    ghost predicate References()
      reads this`refs, this`history, refs.Values
    {
      Explains(history, View(refs))
    }

    /** Each finished file has contributed its tables and its templates once, in order. */
    ghost predicate Valid(w: World)
      reads this, refs.Values, Arrays(tables), RowsIn(tables)
    {
      && GraphInv(w, files, order)
      && HoldAll(tables, AllTables(w, order)) && history == AllTemplates(w, order) && References()
    }

    /** Why the walk below f stopped, judged by the context as it stands. */
    ghost predicate Troubled(w: World, f: string)
      reads this, refs.Values
    {
      Trouble(w, f, files, order, history, View(refs))
    }

    /** Reads one name; a file opened before is skipped. */
    method LoadFile(w: World, name: string) returns (ok: bool)
      requires WellTypedWorld(w) && Valid(w)
      requires var f := Resolve(w, name); f.Some? ==> forall g | Pending(files, order, g) :: Reaches(w, g, f.value)
      modifies this
      ensures ok ==>
                && Valid(w) && Resolve(w, name).Some? && Kept(old(refs), refs)
                && Loaded(w, Resolve(w, name).value, old(files), old(order), files, order)
      ensures forall n | n in old(refs) :: old(refs)[n].cells == old(refs[n].cells)
      ensures fresh(Arrays(tables) - old(Arrays(tables)))
      ensures !ok ==> Resolve(w, name).None? || Troubled(w, Resolve(w, name).value)
      decreases |Unopened(w, files)|, 0
    {
      hide Reaches, GraphInv, Edge, Explains, Trouble;
      var file := Resolve(w, name);
      if file.None? {
        return false;
      }
      if file.value in files {
        return true;
      }
      if w.files[file.value].Unreadable? {
        TroubleHere(w, file.value, files, order, history, View(refs));
        return false;
      }
      OpeningShrinks(w, files, file.value);
      if w.files[file.value].Broken? {
        files := files + [file.value];
        TroubleHere(w, file.value, files, order, history, View(refs));
        return false;
      }
      OpenKeepsInv(w, files, order, file.value);
      ReachesSelf(w, file.value);
      files := files + [file.value];
      ok := LoadYml(w, file.value, old(files));
    }

    /** The contents of the file just opened: first what it inherits, then its templates, then its tables. */
    method LoadYml(w: World, f: string, ghost before: seq<string>) returns (ok: bool)
      requires WellTypedWorld(w) && Valid(w) && IsYaml(w, f)
      requires f !in before && files == before + [f] && forall x | x in order :: x in before
      requires forall g | Pending(files, order, g) :: Reaches(w, g, f)
      modifies this
      ensures ok ==> Valid(w) && Kept(old(refs), refs) && Loaded(w, f, before, old(order), files, order)
      ensures fresh(Arrays(tables) - old(Arrays(tables)))
      ensures !ok ==> Troubled(w, f)
      decreases |Unopened(w, files)|, 1
    {
      hide Reaches, GraphInv, Edge, Explains, Trouble;
      var x := w.files[f].fixture;
      ok := LoadInherits(w, f, x.inherits);
      if !ok {
        return;
      }
      assert Pending(files, order, f);
      ok := LoadContents(x, AllTables(w, order));
      if !ok {
        TroubleHere(w, f, files, order, history, View(refs));
        return;
      }
      FinishKeepsInv(w, files, order, f);
      FinishLoads(w, f, before, old(order), files, order);
      AllSnoc(w, order, f);
      order := order + [f];
    }

    /** The templates of a file, then its tables. */
    method LoadContents(x: Fixture, ghost before: seq<SourceTable>) returns (ok: bool)
      requires References() && HoldAll(tables, before)
      requires forall i | 0 <= i < |x.templates| :: WellTyped(x.templates[i].raw)
      modifies this`refs, this`history, this`tables
      ensures ok ==> References() && Kept(old(refs), refs) && history == old(history) + x.templates
      ensures ok ==> HoldAll(tables, before + x.tables) && forall i | 0 <= i < |x.tables| :: x.tables[i].rows.Some?
      ensures fresh(Arrays(tables) - old(Arrays(tables)))
      ensures !ok ==> Clash(history, View(refs), x.templates) ||
                      exists i | 0 <= i < |x.tables| :: x.tables[i].rows.None?
    {
      hide Explains, Clash, WellTyped;
      ok := LoadTemplates(x.templates);
      if ok {
        ok := AddTables(x.tables, before);
      }
    }

    method LoadInherits(w: World, f: string, inherits: seq<string>) returns (ok: bool)
      requires WellTypedWorld(w) && Valid(w) && IsYaml(w, f) && inherits == w.files[f].fixture.inherits
      requires Pending(files, order, f) && forall g | Pending(files, order, g) :: Reaches(w, g, f)
      modifies this
      ensures ok ==>
                && Valid(w) && Kept(old(refs), refs) && Inheriting(w, f, old(files), old(order), files, order)
                && (forall g | Edge(w, f, g) :: g in files)
                && (forall i | 0 <= i < |inherits| :: Resolve(w, inherits[i]).Some?)
      ensures fresh(Arrays(tables) - old(Arrays(tables)))
      ensures !ok ==> Troubled(w, f)
      decreases |Unopened(w, files)|, 1, 0
    {
      hide Reaches, GraphInv, Explains, Trouble;
      for i := 0 to |inherits|
        invariant fresh(Arrays(tables) - old(Arrays(tables)))
        invariant Valid(w) && Kept(old(refs), refs) && Inheriting(w, f, old(files), old(order), files, order)
        invariant forall j | 0 <= j < i :: Resolve(w, inherits[j]).Some? && Resolve(w, inherits[j]).value in files
      {
        GrowthShrinks(w, old(files), files);
        var c := Resolve(w, inherits[i]);
        if c.Some? {
          assert Edge(w, f, c.value);
          forall g | Pending(files, order, g) ensures Reaches(w, g, c.value) {
            assert old(Pending(files, order, g));
            ReachesThenEdge(w, g, f, c.value);
          }
        }
        ghost var files1, order1 := files, order;
        ok := LoadFile(w, inherits[i]);
        if !ok {
          if c.Some? {
            TroubleBelow(w, f, c.value, files, order, history, View(refs));
          } else {
            TroubleHere(w, f, files, order, history, View(refs));
          }
          return;
        }
        InheritStep(w, f, c.value, old(files), old(order), files1, order1, files, order);
      }
      ok := true;
    }

    method LoadTemplates(templates: seq<Def>) returns (ok: bool)
      requires References() && forall i | 0 <= i < |templates| :: WellTyped(templates[i].raw)
      modifies this`refs, this`history
      ensures ok ==> References() && history == old(history) + templates && Kept(old(refs), refs)
      ensures !ok ==> Clash(history, View(refs), templates)
      ensures forall n | n in old(refs) :: old(refs)[n].cells == old(refs[n].cells)
    {
      hide Explains, Flatten, WellTyped;
      for i := 0 to |templates|
        invariant References() && history == old(history) + templates[..i] && Kept(old(refs), refs)
      {
        var d := templates[i];
        var row := new Row(d.raw);
        if d.name in refs {
          assert history[|history| - i..] == templates[..i] && ClashAt(View(refs), templates[i]);
          return false;
        }
        var merged := Extended(refs, row);
        if merged == null {
          assert history[|history| - i..] == templates[..i] && ClashAt(View(refs), templates[i]);
          return false;
        }
        Store(d.name, merged, d.raw);
      }
      ok := true;
    }

    /** Stores an extended row under a new name. */
    method Store(name: string, row: Row, ghost raw: Cells)
      requires References() && WellTyped(raw) && Flatten(View(refs), raw) == Some(row.cells) && name !in refs
      modifies this`refs, this`history
      ensures refs == old(refs)[name := row] && history == old(history) + [Def(name, raw)] && References()
    {
      hide Explains, Flatten, WellTyped;
      StoreExplains(history, View(refs), Def(name, raw), row.cells);
      refs := refs[name := row];
      history := history + [Def(name, raw)];
      assert View(refs) == View(old(refs))[name := row.cells];
    }

    /** Reads the tables of a file. */
    method AddTables(source: seq<SourceTable>, ghost before: seq<SourceTable>) returns (ok: bool)
      requires HoldAll(tables, before)
      modifies this`tables
      ensures ok ==> HoldAll(tables, before + source)
      ensures ok <==> forall i | 0 <= i < |source| :: source[i].rows.Some?
      ensures fresh(Arrays(tables) - old(Arrays(tables)))
    {
      hide HoldAll, RowsIn;
      assert before + source[..0] == before;
      for i := 0 to |source|
        invariant fresh(Arrays(tables) - old(Arrays(tables)))
        invariant HoldAll(tables, before + source[..i]) && forall j | 0 <= j < i :: source[j].rows.Some?
      {
        if source[i].rows.None? {
          return false;
        }
        assert (before + source[..i]) + [source[i]] == before + source[..i + 1];
        AddTable(source[i], before + source[..i]);
      }
      assert source[..|source|] == source;
      ok := true;
    }

    method AddTable(t: SourceTable, ghost before: seq<SourceTable>)
      requires HoldAll(tables, before) && t.rows.Some?
      modifies this`tables
      ensures HoldAll(tables, before + [t]) && fresh(Arrays(tables) - old(Arrays(tables)))
    {
      hide CellsOf;
      var rows := NewRows(t.rows.value);
      tables := tables + [LoadedTable(t.name, rows)];
    }

    // ---------- putting tables in ----------

    /** Replaces each row that extends another by the merged row; false for an undefined reference. */
    method ExtendRows(rows: array<Row>) returns (ok: bool)
      requires References() && forall i | 0 <= i < rows.Length :: WellTyped(rows[i].cells)
      modifies rows
      ensures ok <==> forall i | 0 <= i < rows.Length :: BaseKnown(history, old(rows[i].cells))
      ensures ok ==> forall i | 0 <= i < rows.Length ::
                  && Means(history, old(rows[i].cells), rows[i].cells)
                  && Flatten(View(refs), old(rows[i].cells)) == Some(rows[i].cells)
    {
      hide Explains, Flatten, WellTyped, BaseKnown, Means;
      for i := 0 to rows.Length
        invariant forall j | 0 <= j < i :: Flatten(View(refs), old(rows[j].cells)) == Some(rows[j].cells)
        invariant forall j | 0 <= j < i :: Means(history, old(rows[j].cells), rows[j].cells)
        invariant forall j | 0 <= j < i :: BaseKnown(history, old(rows[j].cells))
        invariant forall j | i <= j < rows.Length :: rows[j] == old(rows[j])
      {
        FlattenIff(history, View(refs), rows[i].cells);
        var merged := Extended(refs, rows[i]);
        if merged == null {
          return false;
        }
        FlattenMeans(history, View(refs), rows[i].cells, merged.cells);
        rows[i] := merged;
      }
      ok := true;
    }

    /** One table: merge, insert, then store the named rows the database gave back, the very rows of the table. */
    method LoadTable(rows: array<Row>, accepted: bool, returned: int -> bool) returns (ok: bool)
      requires References() && forall i | 0 <= i < rows.Length :: WellTyped(rows[i].cells)
      modifies this`refs, this`history, rows
      ensures References() && Kept(old(refs), refs)
      ensures forall n | n in old(refs) :: old(refs)[n].cells == old(refs[n].cells)
      ensures ok <==> TableLoads(old(history), old(CellsOf(rows[..])), accepted, returned)
      ensures ok ==> history == old(history) + NamedDefs(old(CellsOf(rows[..])), returned)
      ensures ok ==> forall i | 0 <= i < rows.Length :: Means(history, old(rows[i].cells), rows[i].cells)
      ensures ok ==> forall i | 0 <= i < rows.Length && returned(i) :: StoredIn(refs, rows[i])
    {
      hide Explains, Flatten, Means, BaseKnown, WellTyped, AllNamedOnce;
      ghost var raws := CellsOf(rows[..]);
      ok := ExtendRows(rows);
      if !ok || !accepted {
        return false;
      }
      ok := StoreNamed(rows, raws, returned);
      if ok {
        forall i | 0 <= i < rows.Length ensures Means(history, raws[i], rows[i].cells) {
          ExplainsOnce(history, View(refs));
          MeansStays(old(history), NamedDefs(raws, returned), raws[i], rows[i].cells);
        }
      }
    }

    /** Stores the named rows that came back, until a name is taken. */
    method StoreNamed(rows: array<Row>, ghost raws: seq<Cells>, returned: int -> bool) returns (ok: bool)
      requires References() && |raws| == rows.Length
      requires forall i | 0 <= i < |raws| ::
                 WellTyped(raws[i]) && Flatten(View(refs), raws[i]) == Some(rows[i].cells)
      modifies this`refs, this`history
      ensures References() && Kept(old(refs), refs)
      ensures ok <==> AllNamedOnce(old(history) + NamedDefs(raws, returned))
      ensures ok ==> history == old(history) + NamedDefs(raws, returned)
      ensures ok ==> forall i | 0 <= i < rows.Length && returned(i) :: StoredIn(refs, rows[i])
    {
      hide Explains, Flatten, AllNamedOnce, StoredIn, WellTyped, NamedDef;
      ghost var refs0 := View(refs);
      assert raws[..0] == [];
      for i := 0 to rows.Length
        invariant References() && Kept(old(refs), refs) && Extends(refs0, View(refs))
        invariant history == old(history) + NamedDefs(raws[..i], returned)
        invariant forall j | 0 <= j < i && returned(j) :: StoredIn(refs, rows[j])
      {
        NamedDefsSnoc(raws, returned, i);
        FlattenStays(refs0, View(refs), raws[i], rows[i].cells);
        ghost var refs1, history1 := refs, history;
        ok := StoreIfNamed(rows[i], raws[i], returned(i));
        if !ok {
          StoredIsNamed(history, View(refs), raws[i][NAME].text);
          NameIsTaken(history, old(history), raws, returned, i, raws[i][NAME].text);
          return;
        }
        forall j | 0 <= j < i && returned(j) ensures StoredIn(refs, rows[j]) {
          StoredInKept(refs1, refs, rows[j]);
        }
      }
      assert raws[..|raws|] == raws;
      ExplainsOnce(history, View(refs));
      ok := true;
    }

    /** Stores a row that came back with a name, unless the name is taken. */
    method StoreIfNamed(row: Row, ghost raw: Cells, returned: bool) returns (ok: bool)
      requires References() && WellTyped(raw) && Flatten(View(refs), raw) == Some(row.cells)
      modifies this`refs, this`history
      ensures References() && Kept(old(refs), refs)
      ensures ok ==> history == old(history) + NamedDef(raw, returned) && (returned ==> StoredIn(refs, row))
      ensures !ok ==> history == old(history) && NAME in raw && raw[NAME].Text? && raw[NAME].text in refs
      ensures !ok ==> NamedDef(raw, returned) == [Def(raw[NAME].text, raw)]
    {
      hide Explains, Flatten, Strip;
      MarkersStayOwn(View(refs), raw, row.cells, NAME);
      if returned && NAME in row.cells {
        var name := row.cells[NAME].text;
        if name in refs {
          return false;
        }
        Store(name, row, raw);
      }
      ok := true;
    }

    /** One table of the load; without rows it is skipped. */
    method PutIn(t: LoadedTable, ghost source: SourceTable, accepted: bool, returned: int -> bool) returns (ok: bool)
      requires References() && Holds(t, source) && forall i | 0 <= i < |RowsAt(source)| :: WellTyped(RowsAt(source)[i])
      modifies this`refs, this`history, t.rows
      ensures References() && Kept(old(refs), refs)
      ensures ok <==> RowsAt(source) == [] || TableLoads(old(history), RowsAt(source), accepted, returned)
      ensures ok ==> history == old(history) + NamedDefs(RowsAt(source), returned) && AllNamedOnce(history)
      ensures ok ==> HoldsMeant(history, t, source)
    {
      hide Explains, Means, AllNamedOnce, WellTyped, TableLoads;
      ok := true;
      assert CellsOf(t.rows[..]) == RowsAt(source);
      if t.rows.Length > 0 {
        ok := LoadTable(t.rows, accepted, returned);
      }
      ExplainsOnce(history, View(refs));
    }

    /** The next table of the load; the others stay as they are. */
    method PutInNext(ghost source: seq<SourceTable>, k: nat, accepted: bool, returned: int -> bool) returns (ok: bool)
      requires References() && k < |tables| && Midway(history, tables, source, k) && WellTypedTables(source)
      modifies this`refs, this`history, tables[k].rows
      ensures References() && Kept(old(refs), refs)
      ensures ok <==> RowsAt(source[k]) == [] || TableLoads(old(history), RowsAt(source[k]), accepted, returned)
      ensures ok ==> history == old(history) + NamedDefs(RowsAt(source[k]), returned)
      ensures ok ==> Midway(history, tables, source, k + 1)
    {
      hide Explains, AllNamedOnce, WellTyped, NamedDefs, TableLoads, HoldsMeant, Holds, RowsAt;
      ghost var h := history;
      ok := PutIn(tables[k], source[k], accepted, returned);
      if ok {
        forall j | 0 <= j < k ensures HoldsMeant(history, tables[j], source[j]) {
          assert tables[j].rows != tables[k].rows;
          HoldsMeantStays(h, NamedDefs(RowsAt(source[k]), returned), tables[j], source[j]);
        }
        forall j | k < j < |tables| ensures Holds(tables[j], source[j]) {
          assert tables[j].rows != tables[k].rows;
        }
      }
    }

    /** All tables, in the order they were read. */
    method LoadTables(ghost source: seq<SourceTable>, accepted: int -> bool, returned: int -> int -> bool)
      returns (ok: bool)
      requires References() && HoldAll(tables, source) && WellTypedTables(source)
      modifies this`refs, this`history, Arrays(tables)
      ensures References() && Kept(old(refs), refs)
      ensures forall n | n in old(refs) :: old(refs)[n].cells == old(refs[n].cells)
      ensures ok <==> AllLoad(old(history), source, accepted, returned)
      ensures ok ==> history == old(history) + AllNamed(source, returned)
      ensures ok ==> forall k | 0 <= k < |source| :: HoldsMeant(history, tables[k], source[k])
    {
      hide Explains, Means, AllNamedOnce, WellTyped, NamedDefs, TableLoads, HoldsMeant, Holds, RowsAt, AllLoad;
      hide WellTypedTables, Midway, LoadContext.References, View, RowsIn, Apart;
      MidwayStart(history, tables, source);
      AllLoadNothing(history, source, accepted, returned);
      for k := 0 to |tables|
        invariant References() && Kept(old(refs), refs)
        invariant history == old(history) + AllNamed(source[..k], returned)
        invariant Midway(history, tables, source, k) && AllLoad(old(history), source[..k], accepted, returned)
      {
        AllNamedSnoc(source, returned, k);
        AllLoadSnoc(old(history), source, accepted, returned, k);
        ok := PutInNext(source, k, accepted(k), returned(k));
        if !ok {
          return;
        }
      }
      assert source[..|source|] == source;
      MidwayEnd(history, tables, source);
      ok := true;
    }
  }

  lemma MidwayStart(h: seq<Def>, tables: seq<LoadedTable>, source: seq<SourceTable>)
    requires HoldAll(tables, source)
    ensures Midway(h, tables, source, 0)
  {
    hide Holds;
  }

  lemma MidwayEnd(h: seq<Def>, tables: seq<LoadedTable>, source: seq<SourceTable>)
    requires |tables| == |source| && Midway(h, tables, source, |tables|)
    ensures forall k | 0 <= k < |source| :: HoldsMeant(h, tables[k], source[k])
  {
    hide HoldsMeant;
  }

  /** The first k tables hold what their rows mean, the others still what was written. */
  ghost predicate Midway(h: seq<Def>, tables: seq<LoadedTable>, source: seq<SourceTable>, k: nat)
    reads Arrays(tables), RowsIn(tables)
  {
    && |tables| == |source| && Apart(tables)
    && (forall j | 0 <= j < |tables| && j < k :: HoldsMeant(h, tables[j], source[j]))
    && (forall j | 0 <= j < |tables| && j >= k :: Holds(tables[j], source[j]))
  }

  lemma HoldsMeantStays(h: seq<Def>, more: seq<Def>, t: LoadedTable, source: SourceTable)
    requires HoldsMeant(h, t, source) && AllNamedOnce(h + more)
    ensures HoldsMeant(h + more, t, source)
  {
    hide Means, AllNamedOnce;
    forall i | 0 <= i < t.rows.Length ensures Means(h + more, source.rows.value[i], t.rows[i].cells) {
      MeansStays(h, more, source.rows.value[i], t.rows[i].cells);
    }
  }

  /** If the row has a name, that very row is stored under it. */
  ghost predicate StoredIn(refs: map<string, Row>, row: Row)
    reads row
  {
    NAME in row.cells ==>
      row.cells[NAME].Text? && row.cells[NAME].text in refs && refs[row.cells[NAME].text] == row
  }

  lemma StoredInKept(refs: map<string, Row>, refs': map<string, Row>, row: Row)
    requires StoredIn(refs, row) && Kept(refs, refs')
    ensures StoredIn(refs', row)
  {
  }

  ghost predicate WellTypedTables(source: seq<SourceTable>) {
    forall i, j | 0 <= i < |source| && 0 <= j < |RowsAt(source[i])| :: WellTyped(RowsAt(source[i])[j])
  }

  lemma ExplainsOnce(h: seq<Def>, refs: Refs)
    requires Explains(h, refs)
    ensures AllNamedOnce(h)
  {
  }

  lemma StoredIsNamed(h: seq<Def>, refs: Refs, name: string)
    requires Explains(h, refs) && name in refs
    ensures Named(h, name)
  {
  }

  lemma NameIsTaken(h: seq<Def>, before: seq<Def>, raws: seq<Cells>, returned: int -> bool, i: nat, name: string)
    requires Named(h, name) && i < |raws| && h == before + NamedDefs(raws[..i], returned)
    requires NamedDef(raws[i], returned(i)) == [Def(name, raws[i])]
    ensures !AllNamedOnce(before + NamedDefs(raws, returned))
  {
    hide AllNamedOnce, Named, NamedDefs, NamedDef;
    NamedDefsSnoc(raws, returned, i);
    NamedDefsPrefix(raws, returned, i + 1);
    PrefixUnder(before, NamedDefs(raws[..i], returned), Def(name, raws[i]), NamedDefs(raws, returned));
    NamedTwice(h, Def(name, raws[i]), before + NamedDefs(raws, returned));
  }

  lemma PrefixUnder(before: seq<Def>, some: seq<Def>, d: Def, all: seq<Def>)
    requires some + [d] <= all
    ensures (before + some) + [d] <= before + all
  {
    assert (before + some) + [d] == before + (some + [d]);
  }

  lemma ReachedGrows(w: World, names: seq<string>, n: nat, x: string)
    requires n < |names| && Resolve(w, names[n]).Some?
    requires ReachedFrom(w, names[..n], x) || Reaches(w, Resolve(w, names[n]).value, x)
    ensures ReachedFrom(w, names[..n + 1], x)
  {
    var more := names[..n + 1];
    if ReachedFrom(w, names[..n], x) {
      var i :| 0 <= i < n && Resolve(w, names[..n][i]).Some? && Reaches(w, Resolve(w, names[..n][i]).value, x);
      assert more[i] == names[..n][i];
    } else {
      assert more[n] == names[n];
    }
  }

  /** Gathers the named fixtures into a fresh context.  It terminates on any graph, cycles included. */
  method Gather(w: World, names: seq<string>) returns (ok: bool, ctx: LoadContext)
    requires WellTypedWorld(w)
    ensures fresh(ctx) && fresh(Arrays(ctx.tables))
    ensures ok ==> ctx.Valid(w) && Complete(w, names, ctx.files, ctx.order)
    ensures !ok ==> exists i | 0 <= i < |names| ::
                Resolve(w, names[i]).None? || ctx.Troubled(w, Resolve(w, names[i]).value)
  {
    hide Reaches, GraphInv, Edge, Explains, ReachedFrom, Trouble;
    ctx := new LoadContext();
    EmptyContext(w);
    for n := 0 to |names|
      invariant fresh(ctx) && fresh(Arrays(ctx.tables))
      invariant ctx.Valid(w) && forall x :: !Pending(ctx.files, ctx.order, x)
      invariant forall i | 0 <= i < n :: Resolve(w, names[i]).Some? && Resolve(w, names[i]).value in ctx.files
      invariant forall x | x in ctx.files :: ReachedFrom(w, names[..n], x)
    {
      ghost var files := ctx.files;
      ok := ctx.LoadFile(w, names[n]);
      if !ok {
        return;
      }
      forall x | x in files ensures x in ctx.files {
        var i :| 0 <= i < |files| && files[i] == x;
        assert ctx.files[i] == x;
      }
      forall x | x in ctx.files ensures ReachedFrom(w, names[..n + 1], x) {
        ReachedGrows(w, names, n, x);
      }
    }
    assert names[..|names|] == names;
    DoneIsComplete(w, names, ctx.files, ctx.order);
    ok := true;
  }

  lemma EmptyContext(w: World)
    ensures GraphInv(w, [], []) && Explains([], map[])
  {
  }

  lemma {:induction false} WellTypedAll(w: World, order: seq<string>)
    requires WellTypedWorld(w)
    ensures WellTypedTables(AllTables(w, order))
  {
    hide WellTyped;
    if order != [] {
      var k := |order| - 1;
      WellTypedAll(w, order[..k]);
      var x := FixtureAt(w, order[k]);
      assert IsYaml(w, order[k]) ==> WellTypedFixture(x);
      forall i, j | 0 <= i < |x.tables| && 0 <= j < |RowsAt(x.tables[i])| ensures WellTyped(RowsAt(x.tables[i])[j]) {
        assert x.tables[i].rows.Some?;
      }
    }
  }

  /** A whole load: gather the named fixtures, then put their tables in.  `accepted` and `returned` are what the
      database answers, table by table and row by row.  Afterwards every row of every table has in each column the
      value of the nearest row up its `$extend` chain, through templates and named rows, and so has every reference. */
  method Load(w: World, names: seq<string>, accepted: int -> bool, returned: int -> int -> bool)
    returns (ok: bool, ctx: LoadContext)
    requires WellTypedWorld(w)
    ensures fresh(ctx)
    ensures ok ==>
              var source := AllTables(w, ctx.order);
              && Complete(w, names, ctx.files, ctx.order)
              && ctx.history == AllTemplates(w, ctx.order) + AllNamed(source, returned) && ctx.References()
              && |ctx.tables| == |source|
              && forall k | 0 <= k < |source| :: HoldsMeant(ctx.history, ctx.tables[k], source[k])
    ensures !ok ==>
              || (exists i | 0 <= i < |names| ::
                    Resolve(w, names[i]).None? || ctx.Troubled(w, Resolve(w, names[i]).value))
              || (Complete(w, names, ctx.files, ctx.order) &&
                  !AllLoad(AllTemplates(w, ctx.order), AllTables(w, ctx.order), accepted, returned))
    ensures ok ==> AllLoad(AllTemplates(w, ctx.order), AllTables(w, ctx.order), accepted, returned)
  {
    hide Complete, GraphInv, Explains, Trouble, AllLoad, HoldsMeant, Holds, WellTypedTables, WellTypedWorld;
    ok, ctx := Gather(w, names);
    if ok {
      WellTypedAll(w, ctx.order);
      ok := ctx.LoadTables(AllTables(w, ctx.order), accepted, returned);
    }
  }
}
