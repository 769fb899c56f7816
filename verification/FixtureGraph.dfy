/** The files a fixture inherits from, as a graph that may have cycles. */
module FixtureGraph {
  import opened Wrappers
  import opened FixtureRefs

  /** `rows` is None where the file holds something other than an array. */
  datatype SourceTable = SourceTable(name: string, rows: Option<seq<Cells>>)

  datatype Fixture = Fixture(inherits: seq<string>, templates: seq<Def>, tables: seq<SourceTable>)

  datatype Content = Yaml(fixture: Fixture) | Broken | Unreadable

  /** The fixture directory and what is in it. */
  datatype World = World(location: string, files: map<string, Content>)

  /** The file a name stands for: as it is, or with one of two extensions. */
  function Resolve(w: World, name: string): (file: Option<string>)
    ensures var path := w.location + "/" + name;
            && (file.None? <==> path !in w.files && path + ".yml" !in w.files && path + ".yaml" !in w.files)
            && (file.Some? ==> file.value in w.files)
            && (path in w.files ==> file == Some(path))
            && (path !in w.files && path + ".yml" in w.files ==> file == Some(path + ".yml"))
            && (path !in w.files && path + ".yml" !in w.files && path + ".yaml" in w.files ==>
                  file == Some(path + ".yaml"))
  {
    var path := w.location + "/" + name;
    if path in w.files then Some(path)
    else if path + ".yml" in w.files then Some(path + ".yml")
    else if path + ".yaml" in w.files then Some(path + ".yaml")
    else None
  }

  ghost predicate IsYaml(w: World, f: string) {
    f in w.files && w.files[f].Yaml?
  }

  /** The file reads, every name it inherits stands for a file, and its tables are arrays. */
  ghost predicate Sound(w: World, f: string) {
    && IsYaml(w, f)
    && (forall i | 0 <= i < |w.files[f].fixture.inherits| :: Resolve(w, w.files[f].fixture.inherits[i]).Some?)
    && (forall i | 0 <= i < |w.files[f].fixture.tables| :: w.files[f].fixture.tables[i].rows.Some?)
  }

  /** f inherits g. */
  ghost predicate Edge(w: World, f: string, g: string) {
    IsYaml(w, f) && exists i | 0 <= i < |w.files[f].fixture.inherits| ::
      Resolve(w, w.files[f].fixture.inherits[i]) == Some(g)
  }

  ghost predicate IsPath(w: World, p: seq<string>, f: string, g: string) {
    |p| >= 1 && p[0] == f && p[|p| - 1] == g && forall i | 0 <= i < |p| - 1 :: Edge(w, p[i], p[i + 1])
  }

  /** g is f or is inherited by f, directly or not. */
  ghost predicate Reaches(w: World, f: string, g: string) {
    exists p :: IsPath(w, p, f, g)
  }

  lemma ReachesSelf(w: World, f: string)
    ensures Reaches(w, f, f)
  {
    assert IsPath(w, [f], f, f);
  }

  lemma ReachesThenEdge(w: World, f: string, g: string, h: string)
    requires Reaches(w, f, g) && Edge(w, g, h)
    ensures Reaches(w, f, h)
  {
    var p :| IsPath(w, p, f, g);
    var q := p + [h];
    forall i | 0 <= i < |q| - 1 ensures Edge(w, q[i], q[i + 1]) {
      if i < |p| - 1 {
        assert Edge(w, p[i], p[i + 1]);
      }
    }
    assert IsPath(w, q, f, h);
  }

  lemma EdgeThenReaches(w: World, f: string, g: string, h: string)
    requires Edge(w, f, g) && Reaches(w, g, h)
    ensures Reaches(w, f, h)
  {
    var p :| IsPath(w, p, g, h);
    var q := [f] + p;
    forall i | 0 <= i < |q| - 1 ensures Edge(w, q[i], q[i + 1]) {
      if i > 0 {
        assert Edge(w, p[i - 1], p[i]);
      }
    }
    assert IsPath(w, q, f, h);
  }

  /** A set closed under inheritance holds everything its members reach. */
  lemma {:induction false} ClosedUnderReach(w: World, files: seq<string>, p: seq<string>, f: string, g: string)
    requires forall x, y | x in files && Edge(w, x, y) :: y in files
    requires IsPath(w, p, f, g) && f in files
    ensures g in files
    decreases |p|
  {
    if |p| > 1 {
      assert Edge(w, p[0], p[1]);
      var rest := p[1..];
      forall i | 0 <= i < |rest| - 1 ensures Edge(w, rest[i], rest[i + 1]) {
        assert Edge(w, p[i + 1], p[i + 2]);
      }
      ClosedUnderReach(w, files, rest, p[1], g);
    }
  }

  /** After the last definitions stored, which are the first templates of the list, the next one has a name that is
      taken or extends a row that is not stored. */
  ghost predicate Clash(h: seq<Def>, refs: Refs, templates: seq<Def>) {
    exists i | 0 <= i < |templates| :: i <= |h| && h[|h| - i..] == templates[..i] && ClashAt(refs, templates[i])
  }

  ghost predicate ClashAt(refs: Refs, d: Def) {
    d.name in refs || (WellTyped(d.raw) && Flatten(refs, d.raw).None?)
  }

  /** A file below f is not sound, or it is being read and its next template clashes. */
  ghost predicate Trouble(w: World, f: string, files: seq<string>, order: seq<string>, h: seq<Def>, refs: Refs) {
    exists g :: Reaches(w, f, g) && Culprit(w, g, files, order, h, refs)
  }

  ghost predicate Culprit(w: World, g: string, files: seq<string>, order: seq<string>, h: seq<Def>, refs: Refs) {
    !Sound(w, g) || (Pending(files, order, g) && Clash(h, refs, w.files[g].fixture.templates))
  }

  lemma TroubleHere(w: World, f: string, files: seq<string>, order: seq<string>, h: seq<Def>, refs: Refs)
    requires Culprit(w, f, files, order, h, refs)
    ensures Trouble(w, f, files, order, h, refs)
  {
    ReachesSelf(w, f);
  }

  lemma TroubleBelow(w: World, f: string, c: string, files: seq<string>, order: seq<string>, h: seq<Def>, refs: Refs)
    requires Edge(w, f, c) && Trouble(w, c, files, order, h, refs)
    ensures Trouble(w, f, files, order, h, refs)
  {
    hide Edge, Culprit;
    var g :| Reaches(w, c, g) && Culprit(w, g, files, order, h, refs);
    EdgeThenReaches(w, f, c, g);
  }

  // ---------- the state of a load ----------

  ghost predicate Once(s: seq<string>) {
    forall i, j | 0 <= i < j < |s| :: s[i] != s[j]
  }

  ghost function FixtureAt(w: World, f: string): Fixture {
    if IsYaml(w, f) then w.files[f].fixture else Fixture([], [], [])
  }

  /** The tables of the finished files, as written. */
  ghost function AllTables(w: World, order: seq<string>): seq<SourceTable> {
    if order == [] then [] else AllTables(w, order[..|order| - 1]) + FixtureAt(w, order[|order| - 1]).tables
  }

  ghost function AllTemplates(w: World, order: seq<string>): seq<Def> {
    if order == [] then [] else AllTemplates(w, order[..|order| - 1]) + FixtureAt(w, order[|order| - 1]).templates
  }

  /** `files` are the files opened, `order` those whose contents are in, in the order they went in; a file that is
      in has all its inherited files opened, and each of those went in before it unless it inherits back. */
  ghost predicate GraphInv(w: World, files: seq<string>, order: seq<string>) {
    && Once(files) && Once(order)
    && (forall x | x in order :: x in files)
    && (forall x | x in files :: IsYaml(w, x))
    && (forall x | x in order :: Sound(w, x))
    && (forall i, g | 0 <= i < |order| && Edge(w, order[i], g) ::
          g in files && (g in order[..i] || Reaches(w, g, order[i])))
  }

  ghost predicate Pending(files: seq<string>, order: seq<string>, x: string) {
    x in files && x !in order
  }

  /** Loading f has opened only files f reaches, finished them all, and touched nothing else. */
  ghost predicate Loaded(w: World, f: string, files: seq<string>, order: seq<string>, files': seq<string>,
                         order': seq<string>) {
    && files <= files' && order <= order' && f in files'
    && (forall x :: Pending(files', order', x) <==> Pending(files, order, x))
    && (forall x | x in files' :: x in files || Reaches(w, f, x))
  }

  lemma OpenKeepsInv(w: World, files: seq<string>, order: seq<string>, f: string)
    requires GraphInv(w, files, order) && f !in files && IsYaml(w, f)
    ensures GraphInv(w, files + [f], order) && forall x | x in order :: x in files
  {
    var more := files + [f];
    forall i, g | 0 <= i < |order| && Edge(w, order[i], g)
      ensures g in more && (g in order[..i] || Reaches(w, g, order[i]))
    {
      assert g in files;
    }
  }

  lemma FinishKeepsInv(w: World, files: seq<string>, order: seq<string>, f: string)
    requires GraphInv(w, files, order) && Pending(files, order, f) && Sound(w, f)
    requires forall g | Edge(w, f, g) :: g in files
    requires forall g | Pending(files, order, g) :: Reaches(w, g, f)
    ensures GraphInv(w, files, order + [f])
  {
    hide Edge, Reaches, Sound;
    var more := order + [f];
    forall i, g | 0 <= i < |more| && Edge(w, more[i], g)
      ensures g in files && (g in more[..i] || Reaches(w, g, more[i]))
    {
      if i < |order| {
        assert more[..i] == order[..i];
      } else {
        assert more[..i] == order;
        assert g in order || Pending(files, order, g);
      }
    }
  }

  lemma FinishLoads(w: World, f: string, files: seq<string>, order: seq<string>, files': seq<string>,
                    order': seq<string>)
    requires f !in files && files + [f] <= files' && order <= order' && Pending(files', order', f)
    requires forall x | x in order :: x in files
    requires forall x :: Pending(files', order', x) <==> Pending(files + [f], order, x)
    requires forall x | x in files' :: x in files || Reaches(w, f, x)
    ensures Loaded(w, f, files, order, files', order' + [f])
  {
    hide Reaches;
    forall x ensures Pending(files', order' + [f], x) <==> Pending(files, order, x) {
      assert Pending(files', order', x) <==> Pending(files + [f], order, x);
    }
    assert files <= files + [f] <= files';
  }

  /** Progress while loading what f inherits, since the walk entered f with `files` and `order`. */
  ghost predicate Inheriting(w: World, f: string, files: seq<string>, order: seq<string>, files': seq<string>,
                             order': seq<string>) {
    && files <= files' && order <= order'
    && (forall x :: Pending(files', order', x) <==> Pending(files, order, x))
    && (forall x | x in files' :: x in files || Reaches(w, f, x))
  }

  lemma InheritStep(w: World, f: string, c: string, files: seq<string>, order: seq<string>, files1: seq<string>,
                    order1: seq<string>, files2: seq<string>, order2: seq<string>)
    requires Inheriting(w, f, files, order, files1, order1) && Edge(w, f, c)
             && Loaded(w, c, files1, order1, files2, order2)
    ensures Inheriting(w, f, files, order, files2, order2) && forall x | x in files1 :: x in files2
  {
    hide Reaches, Edge;
    forall x | x in files2 ensures x in files || Reaches(w, f, x) {
      if x !in files1 {
        EdgeThenReaches(w, f, c, x);
      }
    }
    forall x | x in files1 ensures x in files2 {
      var i :| 0 <= i < |files1| && files1[i] == x;
      assert files2[i] == x;
    }
  }

  lemma AllSnoc(w: World, order: seq<string>, f: string)
    ensures AllTables(w, order + [f]) == AllTables(w, order) + FixtureAt(w, f).tables
    ensures AllTemplates(w, order + [f]) == AllTemplates(w, order) + FixtureAt(w, f).templates
  {
    assert (order + [f])[..|order|] == order;
  }

  ghost function Unopened(w: World, files: seq<string>): set<string> {
    set x | x in w.files && x !in files
  }

  lemma OpeningShrinks(w: World, files: seq<string>, f: string)
    requires f in w.files && f !in files
    ensures |Unopened(w, files + [f])| < |Unopened(w, files)|
  {
    assert Unopened(w, files + [f]) == Unopened(w, files) - {f};
  }

  lemma GrowthShrinks(w: World, files: seq<string>, files': seq<string>)
    requires files <= files'
    ensures |Unopened(w, files')| <= |Unopened(w, files)|
  {
    var a, b := Unopened(w, files'), Unopened(w, files);
    forall x | x in files ensures x in files' {
      var i :| 0 <= i < |files| && files[i] == x;
      assert files'[i] == x;
    }
    assert b == a + (b - a);
  }

  // ---------- what a finished load has done ----------

  ghost predicate ReachedFrom(w: World, names: seq<string>, x: string) {
    exists i | 0 <= i < |names| :: Resolve(w, names[i]).Some? && Reaches(w, Resolve(w, names[i]).value, x)
  }

  /** Exactly the reachable files were opened, each once, and each went in once. */
  ghost predicate Complete(w: World, names: seq<string>, files: seq<string>, order: seq<string>) {
    && GraphInv(w, files, order)
    && (forall x :: x in files <==> ReachedFrom(w, names, x))
    && (forall x :: x in order <==> x in files)
  }

  /** A finished load has met only sound files. */
  lemma ReachedAreSound(w: World, names: seq<string>, files: seq<string>, order: seq<string>, x: string)
    requires Complete(w, names, files, order) && ReachedFrom(w, names, x)
    ensures Sound(w, x)
  {
    hide Sound, Edge, Reaches, ReachedFrom;
    assert x in order;
  }

  /** With nothing pending, the opened files are closed under inheritance. */
  lemma DoneIsClosed(w: World, files: seq<string>, order: seq<string>)
    requires GraphInv(w, files, order) && forall x :: !Pending(files, order, x)
    ensures forall x :: x in order <==> x in files
    ensures forall x, y | x in files && Edge(w, x, y) :: y in files
  {
    hide Edge, Reaches;
    forall x | x in files ensures x in order {
      assert !Pending(files, order, x);
    }
    forall x, y | x in files && Edge(w, x, y) ensures y in files {
      var i :| 0 <= i < |order| && order[i] == x;
      assert Edge(w, order[i], y);
    }
  }

  lemma DoneIsComplete(w: World, names: seq<string>, files: seq<string>, order: seq<string>)
    requires GraphInv(w, files, order) && forall x :: !Pending(files, order, x)
    requires forall x | x in files :: ReachedFrom(w, names, x)
    requires forall i | 0 <= i < |names| :: Resolve(w, names[i]).Some? && Resolve(w, names[i]).value in files
    ensures Complete(w, names, files, order)
  {
    hide Edge, GraphInv, IsPath, Resolve;
    DoneIsClosed(w, files, order);
    forall x | ReachedFrom(w, names, x) ensures x in files {
      var i :| 0 <= i < |names| && Resolve(w, names[i]).Some? && Reaches(w, Resolve(w, names[i]).value, x);
      var p :| IsPath(w, p, Resolve(w, names[i]).value, x);
      ClosedUnderReach(w, files, p, Resolve(w, names[i]).value, x);
    }
  }

  lemma EdgeOrdered(w: World, files: seq<string>, order: seq<string>, j: nat, g: string)
    requires GraphInv(w, files, order) && j < |order| && Edge(w, order[j], g)
    ensures g in order[..j] || Reaches(w, g, order[j])
  {
    assert Edge(w, order[j], g);
    assert g in files;
  }

  ghost predicate Acyclic(w: World) {
    forall f, g | Edge(w, f, g) :: !Reaches(w, g, f)
  }

  ghost predicate Precedes(order: seq<string>, g: string, f: string) {
    exists i, j | 0 <= i < j < |order| :: order[i] == g && order[j] == f
  }

  /** An inherited file goes in before the file that inherits it, unless it inherits back; so on an acyclic
      graph always. */
  lemma InheritedComesFirst(w: World, names: seq<string>, files: seq<string>, order: seq<string>, f: string, g: string)
    requires Complete(w, names, files, order) && f in files && Edge(w, f, g)
    ensures Precedes(order, g, f) || Reaches(w, g, f)
    ensures Acyclic(w) ==> Precedes(order, g, f)
  {
    hide Edge, Reaches;
    assert f in order;
    var j :| 0 <= j < |order| && order[j] == f;
    EdgeOrdered(w, files, order, j, g);
    if g in order[..j] {
      var i :| 0 <= i < j && order[..j][i] == g;
      assert order[i] == g && order[j] == f;
    }
  }
}
