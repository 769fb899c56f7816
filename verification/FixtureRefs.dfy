/** Named fixture rows and `$extend`: a row starts from a copy of the row it extends, without that row's own
    `$` markers, and overrides it with its own columns. */
module FixtureRefs {
  import opened Wrappers

  datatype Cell = Text(text: string) | Other(id: int)

  type Cells = map<string, Cell>

  /** The stored references, by name. */
  type Refs = map<string, Cells>

  const EXTEND := "$extend"
  const NAME := "$name"

  predicate IsMarker(col: string) {
    col != "" && col[0] == '$'
  }

  /** The `$extend` and `$name` markers hold text; anything else makes the loader panic. */
  predicate WellTyped(row: Cells) {
    (EXTEND in row ==> row[EXTEND].Text?) && (NAME in row ==> row[NAME].Text?)
  }

  function Strip(row: Cells): Cells {
    map k | k in row && !IsMarker(k) :: row[k]
  }

  /** The row with its base filled in, or None for an undefined reference. */
  function Flatten(refs: Refs, row: Cells): Option<Cells>
    requires WellTyped(row)
  {
    if EXTEND !in row then Some(row)
    else if row[EXTEND].text !in refs then None
    else Some(Strip(refs[row[EXTEND].text]) + row)
  }

  function Lookup(row: Cells, col: string): Option<Cell> {
    if col in row then Some(row[col]) else None
  }

  // ---------- what a reference means ----------

  /** A row as written, under its reference name. */
  datatype Def = Def(name: string, raw: Cells)

  ghost predicate Named(h: seq<Def>, name: string) {
    exists i | 0 <= i < |h| :: h[i].name == name
  }

  ghost function IndexOf(h: seq<Def>, name: string): (i: nat)
    requires Named(h, name)
    ensures i < |h| && h[i].name == name
  {
    var i :| 0 <= i < |h| && h[i].name == name; i
  }

  ghost predicate AllNamedOnce(h: seq<Def>) {
    (forall i | 0 <= i < |h| :: WellTyped(h[i].raw)) && forall i, j | 0 <= i < j < |h| :: h[i].name != h[j].name
  }

  /** The value of a column in the i-th row as written: its own, or that of the nearest row up its `$extend` chain
      that has the column. */
  ghost function Nearest(h: seq<Def>, i: nat, col: string): Option<Cell>
    requires i < |h|
    decreases i
  {
    var raw := h[i].raw;
    if col in raw then Some(raw[col])
    else if EXTEND in raw && raw[EXTEND].Text? && Named(h[..i], raw[EXTEND].text)
    then Nearest(h, IndexOf(h[..i], raw[EXTEND].text), col)
    else None
  }

  /** Every stored reference answers each column with the nearest ancestor's value, and every definition in the
      history is stored. */
  ghost predicate Explains(h: seq<Def>, refs: Refs) {
    && AllNamedOnce(h)
    && (forall n :: n in refs <==> Named(h, n))
    && (forall i | 0 <= i < |h| :: Faithful(h, refs, i))
  }

  ghost predicate Faithful(h: seq<Def>, refs: Refs, i: nat)
    requires i < |h|
  {
    h[i].name in refs && forall col | !IsMarker(col) :: Lookup(refs[h[i].name], col) == Nearest(h, i, col)
  }

  lemma {:induction false} NearestStays(h: seq<Def>, d: Def, i: nat, col: string)
    requires i < |h|
    ensures Nearest(h + [d], i, col) == Nearest(h, i, col)
    decreases i
  {
    var more := h + [d];
    assert more[..i] == h[..i];
    var raw := h[i].raw;
    if col !in raw && EXTEND in raw && raw[EXTEND].Text? && Named(h[..i], raw[EXTEND].text) {
      NearestStays(h, d, IndexOf(h[..i], raw[EXTEND].text), col);
    }
  }

  lemma NamedGrows(h: seq<Def>, d: Def)
    ensures forall n :: Named(h + [d], n) <==> Named(h, n) || n == d.name
  {
    var more := h + [d];
    assert more[|h|] == d;
    forall n | Named(h, n) ensures Named(more, n) {
      var i :| 0 <= i < |h| && h[i].name == n;
      assert more[i].name == n;
    }
  }

  /** Storing a flattened row under a new name keeps every reference meaning what it meant, and makes the new one
      mean its chain. */
  lemma StoreExplains(h: seq<Def>, refs: Refs, d: Def, row: Cells)
    requires Explains(h, refs) && d.name !in refs && WellTyped(d.raw) && Flatten(refs, d.raw) == Some(row)
    ensures Explains(h + [d], refs[d.name := row])
  {
    var more, refs' := h + [d], refs[d.name := row];
    NamedGrows(h, d);
    forall i | 0 <= i < |more| ensures more[i].name in refs' && Faithful(more, refs', i) {
      forall col | !IsMarker(col) ensures Lookup(refs'[more[i].name], col) == Nearest(more, i, col) {
        if i < |h| {
          assert Faithful(h, refs, i);
          NearestStays(h, d, i, col);
        } else {
          LastMeansItsChain(h, refs, d, row, col);
        }
      }
    }
    forall i, j | 0 <= i < j < |more| ensures more[i].name != more[j].name {
      if j == |h| {
        assert h[i].name in refs;
      }
    }
  }

  lemma LastMeansItsChain(h: seq<Def>, refs: Refs, d: Def, row: Cells, col: string)
    requires Explains(h, refs) && WellTyped(d.raw) && Flatten(refs, d.raw) == Some(row) && !IsMarker(col)
    ensures Lookup(row, col) == Nearest(h + [d], |h|, col)
  {
    var more := h + [d];
    assert more[|h|] == d && more[..|h|] == h;
    if col !in d.raw && EXTEND in d.raw {
      var base := d.raw[EXTEND].text;
      var j := IndexOf(h, base);
      assert Faithful(h, refs, j);
      NearestStays(h, d, j, col);
    }
  }

  /** Markers are the columns that begin with a dollar sign. */
  lemma MarkerIff(col: string)
    ensures IsMarker(col) <==> exists rest :: col == "$" + rest
  {
    if IsMarker(col) {
      assert col == "$" + col[1..];
    }
  }

  /** Markers are never inherited. */
  lemma MarkersStayOwn(refs: Refs, raw: Cells, row: Cells, k: string)
    requires WellTyped(raw) && Flatten(refs, raw) == Some(row) && IsMarker(k)
    ensures Lookup(row, k) == Lookup(raw, k)
  {
  }

  /** A row flattened earlier flattens the same later, as long as no stored reference changed. */
  lemma FlattenStays(refs: Refs, refs': Refs, raw: Cells, row: Cells)
    requires WellTyped(raw) && Flatten(refs, raw) == Some(row) && Extends(refs, refs')
    ensures Flatten(refs', raw) == Some(row)
  {
  }

  ghost predicate Extends(refs: Refs, refs': Refs) {
    forall n | n in refs :: n in refs' && refs'[n] == refs[n]
  }

  // ---------- what a row means ----------

  /** A row as written in a table, which has no reference name yet. */
  ghost function Anonymous(raw: Cells): Def {
    Def("", raw)
  }

  /** The row has, in each column, the value of the nearest row up the `$extend` chain of the row as written, and of
      the markers its own. */
  ghost predicate Means(h: seq<Def>, raw: Cells, row: Cells) {
    && BaseKnown(h, raw)
    && (forall col | !IsMarker(col) :: Lookup(row, col) == Nearest(h + [Anonymous(raw)], |h|, col))
    && (forall col | IsMarker(col) :: Lookup(row, col) == Lookup(raw, col))
  }

  ghost predicate BaseKnown(h: seq<Def>, raw: Cells) {
    EXTEND in raw ==> raw[EXTEND].Text? && Named(h, raw[EXTEND].text)
  }

  lemma FlattenMeans(h: seq<Def>, refs: Refs, raw: Cells, row: Cells)
    requires Explains(h, refs) && WellTyped(raw) && Flatten(refs, raw) == Some(row)
    ensures Means(h, raw, row)
  {
    forall col | !IsMarker(col) ensures Lookup(row, col) == Nearest(h + [Anonymous(raw)], |h|, col) {
      LastMeansItsChain(h, refs, Anonymous(raw), row, col);
    }
  }

  lemma FlattenIff(h: seq<Def>, refs: Refs, raw: Cells)
    requires Explains(h, refs) && WellTyped(raw)
    ensures Flatten(refs, raw).Some? <==> BaseKnown(h, raw)
  {
  }

  lemma {:induction false} NearestInPrefix(h: seq<Def>, k: seq<Def>, i: nat, col: string)
    requires i < |h| && i < |k| && h[..i + 1] == k[..i + 1]
    ensures Nearest(h, i, col) == Nearest(k, i, col)
    decreases i
  {
    var raw := h[i].raw;
    assert h[i] == h[..i + 1][i] == k[..i + 1][i] == k[i];
    assert h[..i] == h[..i + 1][..i] == k[..i + 1][..i] == k[..i];
    if col !in raw && EXTEND in raw && raw[EXTEND].Text? && Named(h[..i], raw[EXTEND].text) {
      var j := IndexOf(h[..i], raw[EXTEND].text);
      assert h[..j + 1] == h[..i][..j + 1] == k[..i][..j + 1] == k[..j + 1];
      NearestInPrefix(h, k, j, col);
    }
  }

  /** Later definitions under other names do not change what a row means. */
  lemma MeansStays(h: seq<Def>, more: seq<Def>, raw: Cells, row: Cells)
    requires Means(h, raw, row) && AllNamedOnce(h + more)
    ensures Means(h + more, raw, row)
  {
    var all := h + more;
    var x, y := h + [Anonymous(raw)], all + [Anonymous(raw)];
    if EXTEND in raw {
      var base := raw[EXTEND].text;
      var j := IndexOf(h, base);
      assert all[j].name == base;
      assert x[..|h|] == h && y[..|all|] == all;
      assert IndexOf(all, base) == j;
      forall col ensures Nearest(x, j, col) == Nearest(y, j, col) {
        assert x[..j + 1] == h[..j + 1] == all[..j + 1] == y[..j + 1];
        NearestInPrefix(x, y, j, col);
      }
    }
  }
}
