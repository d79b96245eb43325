/** Recursive installation, apps/stinkpkg.c: the install database, verified downloads through one
    shared buffer, and what holds of the database after any call. */
module PkgInstallModel {
  import opened Common
  import opened PkgContainerModel
  import opened PkgFormat
  import opened PkgUnpackModel
  import opened StinkFsModel
  import Sha256Model

  const INSTALL_MAX_DEPTH := 4
  const MAX_PKG_BYTES := 4 * 1024 * 1024
  const MAX_DEPS := 8
  const DB_READ := 2047
  const REPO_INDEX: Bytes := [82, 69, 80, 79, 95, 73, 78, 68, 69, 88]            // "REPO_INDEX"
  const STINKPKG_LCK: Bytes := [83, 84, 73, 78, 75, 80, 75, 71, 46, 76, 67, 75]  // "STINKPKG.LCK"

  // ---------------------------------------------------------------- the database text

  /** "<name> " begins some line of the text. */
  ghost predicate InstalledIn(text: Bytes, name: Bytes) {
    exists a :: EntryFor(text, name, a)
  }

  ghost predicate EntryFor(text: Bytes, name: Bytes, a: int) {
    && 0 <= a && a + |name| < |text| && StartsLine(text, a)
    && text[a..a + |name|] == name && text[a + |name|] == SPACE
    && forall k | a <= k < a + |name| :: !LineEnd(text[k])
  }

  /** The scan of pkg_installed. */
  method ScanFor(text: Bytes, name: Bytes) returns (found: bool)
    ensures found <==> InstalledIn(text, name)
  {
    var ls := 0;
    for i := 0 to |text| + 1
      invariant ls <= i && (ls <= |text| ==> StartsLine(text, ls)) && (i == |text| + 1 ==> ls == i)
      invariant forall k | ls <= k < i && k < |text| :: !LineEnd(text[k])
      invariant forall a | a < ls :: !EntryFor(text, name, a)
    {
      if i == |text| || LineEnd(text[i]) {
        var k := Match(text, ls, i, name);
        if k == |name| && ls + k < i && text[ls + k] == SPACE {
          assert EntryFor(text, name, ls);
          return true;
        }
        NoEntry(text, name, ls, i, k);
        ls := i + 1;
      }
    }
    return false;
  }

  /** The line text[ls..i] is not an entry for name, and no entry starts inside a line. */
  lemma NoEntry(text: Bytes, name: Bytes, ls: nat, i: nat, k: nat)
    requires ls <= i <= |text| && StartsLine(text, ls) && (i == |text| || LineEnd(text[i]))
    requires forall j | ls <= j < i :: !LineEnd(text[j])
    requires k <= |name| && ls + k <= i && text[ls..ls + k] == name[..k]
    requires k == |name| || ls + k == i || text[ls + k] != name[k]
    requires !(k == |name| && ls + k < i && text[ls + k] == SPACE)
    ensures forall a | ls <= a <= i :: !EntryFor(text, name, a)
  {
    forall a | ls <= a <= i ensures !EntryFor(text, name, a) {
      if EntryFor(text, name, a) {
        EntryMatches(text, name, ls, i, a, k);
      }
    }
  }

  lemma EntryMatches(text: Bytes, name: Bytes, ls: nat, i: nat, a: int, k: nat)
    requires ls <= a <= i <= |text| && (i == |text| || LineEnd(text[i]))
    requires forall j | ls <= j < i :: !LineEnd(text[j])
    requires EntryFor(text, name, a) && k <= |name| && ls + k <= |text|
    ensures a == ls && ls + |name| < i
    ensures k < |name| ==> text[ls + k] == name[k]
  {
    assert k < |name| ==> text[a..a + |name|][k] == name[k];
  }

  datatype Entry = Entry(name: Bytes, version: Bytes)

  /** STINKDB with these entries. */
  function Render(db: seq<Entry>): Bytes {
    if db == [] then []
    else var e := db[|db| - 1]; Render(db[..|db| - 1]) + (e.name + [SPACE] + e.version + [NL])
  }

  predicate ValidName(name: Bytes) {
    SPACE !in name && NL !in name && 0 !in name
  }

  predicate ValidEntry(e: Entry) {
    ValidName(e.name) && NL !in e.version && 0 !in e.version
  }

  ghost predicate Registered(db: seq<Entry>, name: Bytes) {
    exists i :: 0 <= i < |db| && db[i].name == name
  }

  /** What one more line adds to the entries of a text that ends where a line ends. */
  lemma OneMoreLine(text: Bytes, e: Entry, name: Bytes, a: int)
    requires text == [] || text[|text| - 1] == NL
    requires ValidEntry(e) && ValidName(name)
    ensures var all := text + (e.name + [SPACE] + e.version + [NL]);
            EntryFor(all, name, a) <==> EntryFor(text, name, a) || (a == |text| && e.name == name)
  {
    var line := e.name + [SPACE] + e.version + [NL];
    var all := text + line;
    if EntryFor(text, name, a) {
      assert all[a..a + |name|] == text[a..a + |name|];
    }
    if a == |text| && e.name == name {
      assert all[|text|..|text| + |name|] == name;
    }
    if EntryFor(all, name, a) {
      LastLine(text, e, name, a);
    }
  }

  lemma LastLine(text: Bytes, e: Entry, name: Bytes, a: int)
    requires text == [] || text[|text| - 1] == NL
    requires ValidEntry(e) && ValidName(name)
    requires EntryFor(text + (e.name + [SPACE] + e.version + [NL]), name, a)
    ensures EntryFor(text, name, a) || (a == |text| && e.name == name)
  {
    var line := e.name + [SPACE] + e.version + [NL];
    var all := text + line;
    if a < |text| {
      assert all[|text| - 1] == NL && LineEnd(all[|text| - 1]);
      assert all[a + |name|] == SPACE;
      assert a + |name| < |text| - 1;
      assert all[a..a + |name|] == text[a..a + |name|];
    } else {
      assert a > |text| ==> !LineEnd(line[a - 1 - |text|]);
      assert all[a..a + |name|] == line[..|name|];
      assert line[..|e.name|] == e.name;
      SameToken(line, e.name, name);
    }
  }

  /** The text before the first space is unique. */
  lemma SameToken(line: Bytes, x: Bytes, y: Bytes)
    requires |x| < |line| && line[..|x|] == x && line[|x|] == SPACE && SPACE !in x
    requires |y| < |line| && line[..|y|] == y && line[|y|] == SPACE && SPACE !in y
    ensures x == y
  {
    assert forall k | 0 <= k < |x| :: line[k] == x[k];
    assert forall k | 0 <= k < |y| :: line[k] == y[k];
  }

  lemma EmptyText(name: Bytes, a: int)
    ensures !EntryFor([], name, a)
  {
  }

  /** Entry j is for name, and its line starts at a. */
  ghost predicate EntryAt(db: seq<Entry>, name: Bytes, j: int, a: int) {
    0 <= j < |db| && db[j].name == name && |Render(db[..j])| == a
  }

  ghost predicate HasEntryAt(db: seq<Entry>, name: Bytes, a: int) {
    exists j :: EntryAt(db, name, j, a)
  }

  lemma EntryAtStep(db: seq<Entry>, name: Bytes, a: int)
    requires db != []
    ensures var n := |db| - 1;
            HasEntryAt(db, name, a) <==> HasEntryAt(db[..n], name, a) || (a == |Render(db[..n])| && db[n].name == name)
  {
    hide Render;
    var n := |db| - 1;
    forall j | 0 <= j < n ensures EntryAt(db, name, j, a) <==> EntryAt(db[..n], name, j, a) {
      assert db[..n][..j] == db[..j];
    }
    assert EntryAt(db, name, n, a) <==> a == |Render(db[..n])| && db[n].name == name;
  }

  /** The lines of a rendered database are its entries. */
  lemma {:induction false} RenderedEntries(db: seq<Entry>, name: Bytes, a: int)
    requires (forall e | e in db :: ValidEntry(e)) && ValidName(name)
    ensures Render(db) == [] || Render(db)[|Render(db)| - 1] == NL
    ensures EntryFor(Render(db), name, a) <==> HasEntryAt(db, name, a)
  {
    hide EntryFor, ValidEntry, ValidName, HasEntryAt;
    if db == [] {
      EmptyText(name, a);
      NoEntryAt(name, a);
    } else {
      var n := |db| - 1;
      RenderedEntries(db[..n], name, a);
      OneMoreLine(Render(db[..n]), db[n], name, a);
      EntryAtStep(db, name, a);
    }
  }

  lemma NoEntryAt(name: Bytes, a: int)
    ensures !HasEntryAt([], name, a)
  {
  }

  /** What pkg_installed can see in the part of the database that it reads. */
  ghost predicate Seen(db: seq<Entry>, name: Bytes) {
    exists j :: 0 <= j < |db| && SeenAt(db, name, j)
  }

  ghost predicate SeenAt(db: seq<Entry>, name: Bytes, j: nat)
    requires j < |db|
  {
    db[j].name == name && |Render(db[..j])| + |name| < DB_READ
  }

  lemma SeenIff(db: seq<Entry>, name: Bytes)
    requires (forall e | e in db :: ValidEntry(e)) && ValidName(name)
    ensures InstalledIn(Prefix(Render(db), 2047), name) <==> Seen(db, name)
  {
    hide Render, ValidEntry, ValidName, EntryFor;
    var text := Render(db);
    forall a: int ensures EntryFor(text, name, a) <==> HasEntryAt(db, name, a) {
      RenderedEntries(db, name, a);
    }
    if InstalledIn(Prefix(text, DB_READ), name) {
      var a :| EntryFor(Prefix(text, DB_READ), name, a);
      InPrefix(text, name, a);
      var j :| EntryAt(db, name, j, a);
      assert SeenAt(db, name, j);
    }
    if Seen(db, name) {
      var j :| 0 <= j < |db| && SeenAt(db, name, j);
      var a := |Render(db[..j])|;
      assert EntryAt(db, name, j, a);
      InPrefix(text, name, a);
    }
  }

  lemma InPrefix(text: Bytes, name: Bytes, a: int)
    ensures EntryFor(Prefix(text, DB_READ), name, a) <==> EntryFor(text, name, a) && a + |name| < DB_READ
  {
  }

  /** As long as the database fits the buffer, that is everything. */
  lemma SeenIsRegistered(db: seq<Entry>, name: Bytes)
    requires |Render(db)| <= DB_READ
    ensures Seen(db, name) <==> Registered(db, name)
  {
    if Registered(db, name) {
      var j :| 0 <= j < |db| && db[j].name == name;
      RenderGrows(db[..j + 1], db);
      assert db[..j + 1][..j] == db[..j];
      assert SeenAt(db, name, j);
    }
  }

  lemma RegisteredStep(db: seq<Entry>, e: Entry, name: Bytes)
    ensures Registered(db + [e], name) <==> Registered(db, name) || e.name == name
  {
    if Registered(db, name) {
      var i :| 0 <= i < |db| && db[i].name == name;
      assert (db + [e])[i].name == name;
    }
    assert (db + [e])[|db|] == e;
  }

  lemma RegisteredGrows(db: seq<Entry>, db': seq<Entry>, name: Bytes)
    requires db <= db' && Registered(db, name)
    ensures Registered(db', name)
  {
    var i :| 0 <= i < |db| && db[i].name == name;
    assert db'[i].name == name;
  }

  lemma {:induction false} RenderGrows(db: seq<Entry>, db': seq<Entry>)
    requires db <= db'
    ensures |Render(db)| <= |Render(db')|
  {
    if db != db' {
      RenderGrows(db, db'[..|db'| - 1]);
    }
  }

  // ---------------------------------------------------------------- the order of registrations

  /** The dependencies that install_pkg looks at: the first eight, 31 characters each. */
  function DepsOf(d: Bytes): seq<Bytes>
    requires Tabled(d)
  {
    seq(if DepCount(d) > MAX_DEPS then MAX_DEPS else DepCount(d), i requires 0 <= i < DepCount(d) =>
      CStr(d[HEADER_SIZE + i * DEP_SIZE..HEADER_SIZE + i * DEP_SIZE + DEP_SIZE - 1]))
  }

  type Repo = map<Bytes, Bytes>

  function Deps(repo: Repo, name: Bytes): seq<Bytes> {
    if name in repo && Tabled(repo[name]) then DepsOf(repo[name]) else []
  }

  /** What the records of an archive mean: at most eight of them count, by their first 31 bytes. */
  lemma DepsAre(repo: Repo, name: Bytes)
    requires name in repo && Tabled(repo[name])
    ensures var d, deps := repo[name], Deps(repo, name);
            && |deps| == Min(Number(d[184..188]), 8)
            && forall i | 0 <= i < |deps| :: 231 + 32 * i <= |d| && deps[i] == CStr(d[200 + 32 * i..231 + 32 * i])
  {
    hide Number, CStr;
    ReaderFields(repo[name]);
  }

  /** The dependencies of an archive of the builder are those it was given, the first eight of them. */
  lemma DepsOfArchive(repo: Repo, p: Package)
    requires Buildable(p) && p.name in repo && repo[p.name] == Archive(p)
    ensures Tabled(repo[p.name]) && Deps(repo, p.name) == p.deps[..Min(|p.deps|, 8)]
  {
    hide Number, CStr, Container, Texts, NoNuls, Packable, Tabled;
    var d, deps := Archive(p), Deps(repo, p.name);
    ContainerLayout(p, 0, Payload(p.files, None));
    DepsAre(repo, p.name);
    FourBytes(d, 184);
    forall i | 0 <= i < |deps| ensures deps[i] == p.deps[i] {
      DepReads(p, 0, Payload(p.files, None), i);
      ShortDep(p, i);
      ShorterField(d[200 + 32 * i..232 + 32 * i], p.deps[i]);
      assert d[200 + 32 * i..232 + 32 * i][..31] == d[200 + 32 * i..231 + 32 * i];
    }
  }

  lemma ShortDep(p: Package, i: nat)
    requires Texts(p) && i < |p.deps|
    ensures |p.deps[i]| < 32
  {
    assert p.deps[i] in p.deps;
  }

  /** Every dependency that counts is registered. */
  ghost predicate RequirementsMet(d: Bytes, db: seq<Entry>) {
    |d| >= 200 ==>
      forall i | 0 <= i < 8 && i < Number(d[184..188]) && 231 + 32 * i <= |d| ::
        Registered(db, CStr(d[200 + 32 * i..231 + 32 * i]))
  }

  /** What closure means for an entry, in terms of the bytes of its archive. */
  lemma ClosedMeans(repo: Repo, db: seq<Entry>, name: Bytes)
    requires Closed(repo, db) && Registered(db, name) && name in repo && Tabled(repo[name])
    ensures RequirementsMet(repo[name], db)
  {
    hide Number, CStr, Deps;
    DepsAre(repo, name);
    var j :| 0 <= j < |db| && db[j].name == name;
    assert db[j] in db;
    var d, deps := repo[name], Deps(repo, name);
    forall i | 0 <= i < 8 && i < Number(d[184..188]) ensures Registered(db, CStr(d[200 + 32 * i..231 + 32 * i])) {
      assert deps[i] in deps;
    }
  }

  /** Everything entry i depends on is registered before it. */
  ghost predicate Placed(repo: Repo, db: seq<Entry>, i: nat)
    requires i < |db|
  {
    forall dep | dep in Deps(repo, db[i].name) :: Registered(db[..i], dep)
  }

  /** db' is db with entries added, each behind its dependencies. */
  ghost predicate Extends(repo: Repo, db: seq<Entry>, db': seq<Entry>) {
    db <= db' && forall i | |db| <= i < |db'| :: Placed(repo, db', i)
  }

  /** db' is db with entries added that pkg_installed did not see, and none of the given names. */
  ghost predicate Grown(db: seq<Entry>, db': seq<Entry>, names: seq<Bytes>) {
    db <= db' && forall i | |db| <= i < |db'| :: Added(db', names, i)
  }

  ghost predicate Added(db: seq<Entry>, names: seq<Bytes>, i: nat)
    requires i < |db|
  {
    db[i].name !in names && !Seen(db[..i], db[i].name)
  }

  ghost predicate NoneSeen(db: seq<Entry>, names: seq<Bytes>) {
    forall q | q in names :: !Seen(db, q)
  }

  ghost predicate Closed(repo: Repo, db: seq<Entry>) {
    forall e, dep | e in db && dep in Deps(repo, e.name) :: Registered(db, dep)
  }

  ghost predicate NoDuplicates(db: seq<Entry>) {
    forall i, j | 0 <= i < j < |db| :: db[i].name != db[j].name
  }

  lemma SeenGrows(db: seq<Entry>, db': seq<Entry>, name: Bytes)
    requires db <= db' && Seen(db, name)
    ensures Seen(db', name)
  {
    var j :| 0 <= j < |db| && SeenAt(db, name, j);
    assert db'[..j] == db[..j];
    assert SeenAt(db', name, j);
  }

  lemma ExtendsTransitive(repo: Repo, a: seq<Entry>, b: seq<Entry>, c: seq<Entry>)
    requires Extends(repo, a, b) && Extends(repo, b, c)
    ensures Extends(repo, a, c)
  {
    forall i | |a| <= i < |c| ensures Placed(repo, c, i) {
      if i < |b| {
        assert Placed(repo, b, i);
        assert c[..i] == b[..i];
      }
    }
  }

  lemma GrownTransitive(a: seq<Entry>, b: seq<Entry>, c: seq<Entry>, names: seq<Bytes>)
    requires Grown(a, b, names) && Grown(b, c, names)
    ensures Grown(a, c, names)
  {
    hide Seen;
    forall i | |a| <= i < |c| ensures Added(c, names, i) {
      if i < |b| {
        assert Added(b, names, i);
        assert c[..i] == b[..i];
      }
    }
  }

  /** Names that are not added do not come into view. */
  lemma GrownHides(a: seq<Entry>, b: seq<Entry>, names: seq<Bytes>)
    requires Grown(a, b, names) && NoneSeen(a, names)
    ensures NoneSeen(b, names)
  {
    forall q | q in names ensures !Seen(b, q) {
      if Seen(b, q) {
        var j :| 0 <= j < |b| && SeenAt(b, q, j);
        EarlierSeen(a, b, names, q, j);
      }
    }
  }

  lemma EarlierSeen(a: seq<Entry>, b: seq<Entry>, names: seq<Bytes>, q: Bytes, j: nat)
    requires Grown(a, b, names) && q in names && j < |b| && SeenAt(b, q, j)
    ensures Seen(a, q)
  {
    assert j >= |a| ==> Added(b, names, j);
    assert j < |a| && a[..j] == b[..j];
    assert SeenAt(a, q, j);
  }

  lemma GrownFewer(a: seq<Entry>, b: seq<Entry>, names: seq<Bytes>, fewer: seq<Bytes>)
    requires Grown(a, b, names) && forall q | q in fewer :: q in names
    ensures Grown(a, b, fewer)
  {
    hide Seen;
    forall i | |a| <= i < |b| ensures Added(b, fewer, i) {
      assert Added(b, names, i);
    }
  }

  lemma ExtendsByOne(repo: Repo, a: seq<Entry>, b: seq<Entry>, e: Entry)
    requires Extends(repo, a, b) && forall dep | dep in Deps(repo, e.name) :: Registered(b, dep)
    ensures Extends(repo, a, b + [e])
  {
    var c := b + [e];
    assert c[..|b|] == b;
    assert Placed(repo, c, |b|);
    forall i | |b| <= i < |c| ensures Placed(repo, c, i) {
    }
    assert Extends(repo, b, c);
    ExtendsTransitive(repo, a, b, c);
  }

  lemma GrownByOne(a: seq<Entry>, b: seq<Entry>, e: Entry, names: seq<Bytes>)
    requires Grown(a, b, names) && e.name !in names && !Seen(b, e.name)
    ensures Grown(a, b + [e], names)
  {
    hide Seen;
    var c := b + [e];
    assert c[..|b|] == b;
    assert Added(c, names, |b|);
    forall i | |b| <= i < |c| ensures Added(c, names, i) {
    }
    assert Grown(b, c, names);
    GrownTransitive(a, b, c, names);
  }

  /** A closed database stays closed, however large it is. */
  lemma ExtendsKeepsClosed(repo: Repo, a: seq<Entry>, b: seq<Entry>)
    requires Extends(repo, a, b) && Closed(repo, a)
    ensures Closed(repo, b)
  {
    forall e, dep | e in b && dep in Deps(repo, e.name) ensures Registered(b, dep) {
      var i :| 0 <= i < |b| && b[i] == e;
      if i < |a| {
        assert e in a;
        RegisteredGrows(a, b, dep);
      } else {
        assert Placed(repo, b, i);
        RegisteredGrows(b[..i], b, dep);
      }
    }
  }

  // ---------------------------------------------------------------- freedom from duplicates

  /** pkg_installed sees the last entry, and with it all of them. */
  ghost predicate LastVisible(db: seq<Entry>) {
    db == [] || SeenAt(db, db[|db| - 1].name, |db| - 1)
  }

  lemma AllVisible(db: seq<Entry>, name: Bytes)
    requires LastVisible(db)
    ensures Seen(db, name) <==> Registered(db, name)
  {
    hide Render;
    if Registered(db, name) {
      var j :| 0 <= j < |db| && db[j].name == name;
      if j < |db| - 1 {
        RenderOne(db, j);
        RenderGrows(db[..j + 1], db[..|db| - 1]);
      }
      assert SeenAt(db, name, j);
    }
  }

  lemma RenderOne(db: seq<Entry>, j: nat)
    requires j < |db|
    ensures |Render(db[..j + 1])| == |Render(db[..j])| + |db[j].name| + |db[j].version| + 2
  {
    assert db[..j + 1][..j] == db[..j];
  }

  lemma DistinctStep(db: seq<Entry>, e: Entry)
    requires NoDuplicates(db)
    ensures NoDuplicates(db + [e]) <==> !Registered(db, e.name)
  {
    var all := db + [e];
    if Registered(db, e.name) {
      var i :| 0 <= i < |db| && db[i].name == e.name;
      assert all[i].name == all[|db|].name;
    }
  }

  /** The exact condition, on the database before a registration: no unseen name makes a duplicate if
      and only if the last entry is visible. */
  lemma DistinctIff(db: seq<Entry>)
    requires NoDuplicates(db)
    ensures (forall db' | Grown(db, db', []) && |db'| == |db| + 1 :: NoDuplicates(db')) <==> LastVisible(db)
  {
    hide Render;
    if LastVisible(db) {
      forall db' | Grown(db, db', []) && |db'| == |db| + 1 ensures NoDuplicates(db') {
        assert db'[..|db'| - 1] == db;
        KeepsDistinct(db, db');
      }
    } else {
      var e := db[|db| - 1];
      OnlyAtTheEnd(db);
      NothingAddedYet(db);
      GrownByOne(db, db, e, []);
      DistinctStep(db, e);
      assert Registered(db, e.name);
    }
  }

  lemma NothingAddedYet(db: seq<Entry>)
    ensures Grown(db, db, [])
  {
  }

  /** The last name occurs nowhere else, so it is seen there or not at all. */
  lemma OnlyAtTheEnd(db: seq<Entry>)
    requires NoDuplicates(db) && !LastVisible(db)
    ensures !Seen(db, db[|db| - 1].name)
  {
    hide Render;
  }

  /** Adding unseen names makes no duplicate as long as the entry before the last addition is visible. */
  lemma {:induction false} KeepsDistinct(a: seq<Entry>, b: seq<Entry>)
    requires Grown(a, b, []) && NoDuplicates(a) && (b == a || LastVisible(b[..|b| - 1]))
    ensures NoDuplicates(b)
  {
    hide Render, Seen;
    if b != a {
      var c, e := b[..|b| - 1], b[|b| - 1];
      GrownShorter(a, b);
      if c != a {
        VisibleShorter(c);
      }
      KeepsDistinct(a, c);
      assert Added(b, [], |b| - 1);
      AllVisible(c, e.name);
      DistinctStep(c, e);
      assert b == c + [e];
    }
  }

  lemma GrownShorter(a: seq<Entry>, b: seq<Entry>)
    requires Grown(a, b, []) && b != a
    ensures |b| > 0 && Grown(a, b[..|b| - 1], [])
  {
    hide Seen;
    var c := b[..|b| - 1];
    forall i | |a| <= i < |c| ensures Added(c, [], i) {
      assert Added(b, [], i);
      assert c[..i] == b[..i];
    }
  }

  lemma VisibleShorter(db: seq<Entry>)
    requires LastVisible(db) && db != []
    ensures LastVisible(db[..|db| - 1])
  {
    hide Render;
    var n := |db| - 1;
    if n > 0 {
      RenderOne(db, n - 1);
      assert db[..n][..n - 1] == db[..n - 1];
    }
  }

  const LINE_MAX := 50  // a name, a space, a version and a newline

  /** An entry that unpack_package writes. */
  ghost predicate Packaged(repo: Repo, e: Entry) {
    e.name in repo && |e.name| + |e.version| + 2 <= LINE_MAX
  }

  ghost function Missing(repo: Repo, db: seq<Entry>): set<Bytes> {
    set name | name in repo && !Registered(db, name)
  }

  /** The window has room for every package of the repository that is not registered yet. */
  ghost predicate Room(repo: Repo, db: seq<Entry>) {
    |Render(db)| + LINE_MAX * |Missing(repo, db)| <= DB_READ
  }

  lemma RoomStep(repo: Repo, db: seq<Entry>, e: Entry)
    requires Room(repo, db) && Packaged(repo, e) && !Registered(db, e.name)
    ensures Room(repo, db + [e])
  {
    hide Registered;
    var all := db + [e];
    RenderOne(all, |db|);
    assert all[..|db|] == db && all[..|db| + 1] == all;
    forall name ensures Registered(all, name) <==> Registered(db, name) || e.name == name {
      RegisteredStep(db, e, name);
    }
    assert Missing(repo, all) == Missing(repo, db) - {e.name};
  }

  /** With room for all packages no series of additions makes a duplicate, and the room remains. */
  lemma {:induction false} RoomKept(repo: Repo, a: seq<Entry>, b: seq<Entry>)
    requires Grown(a, b, []) && (forall i | |a| <= i < |b| :: Packaged(repo, b[i]))
    requires NoDuplicates(a) && Room(repo, a)
    ensures NoDuplicates(b) && Room(repo, b)
  {
    hide Render, Seen, Registered, NoDuplicates;
    if b != a {
      var c, e := b[..|b| - 1], b[|b| - 1];
      GrownShorter(a, b);
      RoomKept(repo, a, c);
      assert Added(b, [], |b| - 1);
      SeenIsRegistered(c, e.name);
      assert b == c + [e];
      DistinctStep(c, e);
      RoomStep(repo, c, e);
    }
  }

  /** A database with long names passes the window with 43 entries. */
  function LongEntry(k: nat): Entry
    requires k < 100
  {
    Entry([33 + k as Byte] + seq(30, _ => 97 as Byte), seq(15, _ => 48 as Byte))
  }

  function LongEntries(n: nat): (db: seq<Entry>)
    requires n <= 100
    ensures |db| == n && forall k | 0 <= k < n :: db[k] == LongEntry(k)
  {
    if n == 0 then [] else LongEntries(n - 1) + [LongEntry(n - 1)]
  }

  lemma {:induction false} LongEntriesLength(n: nat)
    requires n <= 100
    ensures |Render(LongEntries(n))| == 48 * n
  {
    if n > 0 {
      LongEntriesLength(n - 1);
      assert LongEntries(n)[..n - 1] == LongEntries(n - 1);
    }
  }

  lemma LongEntriesDiffer(i: nat, j: nat)
    requires i < j < 100
    ensures LongEntry(i).name != LongEntry(j).name && ValidEntry(LongEntry(i)) && ValidEntry(LongEntry(j))
  {
    assert LongEntry(i).name[0] != LongEntry(j).name[0];
  }

  /** 43 valid, different names of 31 characters: the last is registered but not seen. */
  lemma UnseenName()
    ensures var db := LongEntries(43);
            && (forall e | e in db :: ValidEntry(e)) && NoDuplicates(db) && !LastVisible(db)
            && Registered(db, db[42].name) && !Seen(db, db[42].name)
  {
    hide ValidEntry, Render, LongEntry;
    var db := LongEntries(43);
    forall i, j | 0 <= i < j < 43 ensures db[i].name != db[j].name && ValidEntry(db[i]) && ValidEntry(db[j]) {
      LongEntriesDiffer(i, j);
    }
    LongEntriesLength(42);
    assert db[..42] == LongEntries(42);
    LongName();
    assert !LastVisible(db);
    OnlyAtTheEnd(db);
  }

  lemma LongName()
    ensures |LongEntry(42).name| == 31
  {
  }

  /** A walk along dependencies. */
  ghost predicate Walk(repo: Repo, path: seq<Bytes>) {
    forall k | 0 <= k < |path| - 1 :: Step(repo, path, k)
  }

  ghost predicate Step(repo: Repo, path: seq<Bytes>, k: nat)
    requires k < |path| - 1
  {
    path[k + 1] in Deps(repo, path[k])
  }

  lemma {:induction false} WalkStaysBefore(repo: Repo, a: seq<Entry>, b: seq<Entry>, i: nat, path: seq<Bytes>, k: nat)
    requires Extends(repo, a, b) && Closed(repo, a) && |a| <= i < |b|
    requires 1 <= k < |path| && path[0] == b[i].name && Walk(repo, path)
    ensures Registered(b[..i], path[k])
  {
    assert Step(repo, path, k - 1);
    assert Placed(repo, b, i);
    if k > 1 {
      WalkStaysBefore(repo, a, b, i, path, k - 1);
      var j :| 0 <= j < i && b[..i][j].name == path[k - 1];
      if j < |a| {
        assert a[j] in a;
        RegisteredGrows(a, b[..i], path[k]);
      } else {
        assert Placed(repo, b, j);
        RegisteredGrows(b[..j], b[..i], path[k]);
      }
    }
  }

  /** No name that is registered for the first time lies on a dependency cycle. */
  lemma NoNewCycles(repo: Repo, a: seq<Entry>, b: seq<Entry>, i: nat, path: seq<Bytes>)
    requires Extends(repo, a, b) && Closed(repo, a) && |a| <= i < |b| && !Registered(b[..i], b[i].name)
    requires |path| >= 2 && path[0] == b[i].name && Walk(repo, path)
    ensures path[|path| - 1] != b[i].name
  {
    WalkStaysBefore(repo, a, b, i, path, |path| - 1);
  }

  // ---------------------------------------------------------------- what unpacking does to other files

  /** No file of the archive is stored under this name. */
  ghost predicate Spares(d: Bytes, name: Bytes)
    requires Tabled(d)
  {
    forall i | 0 <= i < FileCount(d) :: Stored(FileName(d, i)) != name
  }

  lemma {:induction false} WritesSpare(files: map<Bytes, Bytes>, d: Bytes, n: nat, name: Bytes)
    requires Tabled(d) && n <= FileCount(d) && (forall i | 0 <= i < n :: BodyInside(d, i))
    requires Spares(d, name) && Stored(name) == name
    ensures Contents(WriteFiles(files, d, n), name) == Contents(files, name)
  {
    hide FileName, BodyInside, Body, Stored;
    if n > 0 {
      WritesSpare(files, d, n - 1, name);
    }
  }

  lemma SystemNames()
    ensures Stored(STINKDB) == STINKDB && Stored(REPO_INDEX) == REPO_INDEX && Stored(STINKPKG_LCK) == STINKPKG_LCK
    ensures STINKDB != REPO_INDEX && STINKDB != STINKPKG_LCK && REPO_INDEX != STINKPKG_LCK
  {
  }

  lemma ListIsNoSystemFile(name: Bytes)
    ensures Stored(ListName(name)) != STINKDB && Stored(ListName(name)) != REPO_INDEX
  {
    assert Stored(ListName(name))[0] == PKG_DASH[0];
  }

  /** A successful unpack adds its line to the database, if the append reaches it, and leaves the
      index alone. */
  lemma DatabaseAfter(files: map<Bytes, Bytes>, files': map<Bytes, Bytes>, d: Bytes, listed: bool, recorded: bool)
    requires Tabled(d) && Spares(d, STINKDB) && Spares(d, REPO_INDEX) && Installed(files, files', d, listed, recorded)
    ensures Contents(files', STINKDB) == Contents(files, STINKDB) + if recorded then DbLine(d) else []
    ensures Contents(files', REPO_INDEX) == Contents(files, REPO_INDEX)
  {
    hide FileCount, BodyInside, WriteFiles, Listing, ListName, PkgName, Stored, DbLine, Spares;
    SystemNames();
    WritesSpare(files, d, FileCount(d), STINKDB);
    WritesSpare(files, d, FileCount(d), REPO_INDEX);
    ListIsNoSystemFile(PkgName(d));
  }

  function HexDigit(n: Byte): Byte
    requires n < 16
  {
    if n < 10 then 48 + n else 87 + n
  }

  /** hex32. */
  function Hex(digest: Bytes): Bytes {
    if digest == [] then []
    else Hex(digest[..|digest| - 1]) + [HexDigit(digest[|digest| - 1] / 16), HexDigit(digest[|digest| - 1] % 16)]
  }

  // ---------------------------------------------------------------- the installer

  class Installer {
    const fs: Fs
    const repo: Repo                          // the archive each name stands for
    const published: map<Bytes, Bytes>        // the digests that REPO_INDEX gives
    const served: map<Bytes, seq<Bytes>>      // what the server may answer to a request
    const pkgBuf: array<Byte>
    ghost const index: Bytes                  // the text of REPO_INDEX
    ghost const start: nat                    // how many entries STINKDB had at first
    ghost var db: seq<Entry>                  // the entries of STINKDB
    ghost var missed: bool                    // some append to STINKDB has failed
    ghost var failed: bool                    // some download, pin check or unpack has failed
    ghost var log: seq<(Bytes, Bytes)>        // every name and archive handed to unpack_package

    constructor (fs: Fs, repo: Repo, published: map<Bytes, Bytes>, served: map<Bytes, seq<Bytes>>, db: seq<Entry>)
      requires Canonical(fs.files) && Contents(fs.files, STINKDB) == Render(db) && forall e | e in db :: ValidEntry(e)
      requires RepoSound(repo, published, served)
      ensures Valid() && this.fs == fs && this.repo == repo && this.db == db && !missed && !failed && log == []
    {
      this.fs, this.repo, this.published, this.served := fs, repo, published, served;
      pkgBuf := new Byte[MAX_PKG_BYTES];
      this.index, this.start := Contents(fs.files, REPO_INDEX), |db|;
      this.db, missed, failed, log := db, false, false, [];
    }

    ghost predicate Valid()
      reads this`db, this`log, fs, pkgBuf
    {
      && RepoSound(repo, published, served) && pkgBuf.Length == MAX_PKG_BYTES
      && Canonical(fs.files) && Contents(fs.files, REPO_INDEX) == index
      && Contents(fs.files, STINKDB) == Render(db) && (forall e | e in db :: ValidEntry(e))
      && (forall i | start <= i < |db| :: Packaged(repo, db[i])) && start <= |db|
      && (forall e | e in log :: e.0 in repo && e.1 == repo[e.0])
    }

    lemma AllTabled(name: Bytes)
      requires Valid() && name in repo
      ensures Tabled(repo[name])
    {
      ArchiveSound(repo, published, served, name);
    }

    lemma AllPackaged()
      requires Valid()
      ensures start <= |db| && forall i | start <= i < |db| :: Packaged(repo, db[i])
    {
    }

    lemma Sound()
      requires Valid()
      ensures RepoSound(repo, published, served) && pkgBuf.Length == MAX_PKG_BYTES
    {
    }

    method PkgInstalled(name: Bytes) returns (found: bool)
      requires Valid()
      ensures found <==> InstalledIn(Prefix(Contents(fs.files, Ascii("STINKDB")), 2047), name)
      ensures ValidName(name) ==> (found <==> Seen(db, name))
    {
      hide RepoSound, Render;
      SystemNames();
      NamesAre([], []);
      var dn, text := fs.Fread(STINKDB, DB_READ);
      if ValidName(name) {
        SeenIff(db, name);
      }
      if dn <= 0 {
        return false;
      }
      found := ScanFor(text, name);
    }

    /** What the buffer holds after a download is the archive of the name. */
    ghost predicate Genuine(name: Bytes, n: int)
      reads pkgBuf
    {
      name in repo && n == |repo[name]| <= pkgBuf.Length && pkgBuf[..n] == repo[name]
    }

    /** http_get into the shared buffer; -1 when the download fails. */
    method HttpGet(name: Bytes) returns (n: int)
      requires Valid()
      modifies pkgBuf, this`failed
      ensures Valid() && (old(failed) ==> failed)
      ensures n == -1 || (0 <= n <= pkgBuf.Length && name in served && pkgBuf[..n] in served[name])
      ensures !failed && name in repo ==> Genuine(name, n)
    {
      hide RepoSound;
      var answer: int := *;
      if name !in served || answer < 0 || answer >= |served[name]| {
        failed := true;
        return -1;
      }
      var body := served[name][answer];
      AnswersFit(repo, published, served, name, answer);
      for i := 0 to |body|
        invariant pkgBuf[..i] == body[..i] && failed == old(failed)
      {
        pkgBuf[i] := body[i];
      }
      assert pkgBuf[..|body|] == body;
      n := |body|;
      failed := failed || !Genuine(name, n);
    }

    /** fetch_and_verify: it succeeds exactly if the download brought the archive that the name
        stands for. */
    method FetchAndVerify(name: Bytes) returns (n: int)
      requires Valid()
      modifies pkgBuf, this`failed
      ensures Valid() && (old(failed) ==> failed)
      ensures n >= 0 ==> Genuine(name, n)
      ensures !failed && name in repo ==> n >= 0
    {
      hide RepoSound, Sha256Model.Sha256;
      n := HttpGet(name);
      if name in repo {
        ArchiveSound(repo, published, served, name);
      }
      if n <= 0 || name !in published {
        return -1;
      }
      var digest := new Byte[32];
      Sha256Model.Sha256Hash(pkgBuf[..n], digest);
      if digest[..] != published[name] {
        return -1;
      }
      VerifiedIsGenuine(repo, published, served, name, pkgBuf[..n]);
    }

    /** unpack_package and the lockfile line, for the archive in the buffer. */
    method UnpackVerified(name: Bytes, n: int) returns (ok: bool)
      requires Valid() && Genuine(name, n)
      modifies this, fs
      ensures Valid() && log == old(log) + [(name, repo[name])]
      ensures (old(missed) ==> missed) && (db == old(db) || (ok && Adds(old(db), db, name)))
      ensures ok && !missed ==> Adds(old(db), db, name)
      ensures failed == (old(failed) || !ok)
    {
      hide RepoSound, Installed, PartlyWritten, Sha256Model.Sha256, Acceptable, Canonical, Render, ValidEntry,
           Contents, Spares, Conflict, AllInside, FileWrites, Packaged, DbLine, PkgVersion;
      ghost var d := repo[name];
      ArchiveSound(repo, published, served, name);
      log := log + [(name, d)];
      ghost var listed, recorded;
      ok, listed, recorded := UnpackPackage(fs, pkgBuf[..n]);
      failed := failed || !ok;
      if !ok {
        FailedUnpack(old(fs.files), fs.files, d);
        return;
      }
      DatabaseAfter(old(fs.files), fs.files, d, listed, recorded);
      if recorded {
        RecordedEntry(repo, db, name);
        db := db + [Entry(name, PkgVersion(d))];
      } else {
        missed := true;
      }
      Lockfile(n);
    }

    /** lockfile_append. */
    method Lockfile(n: int)
      requires Valid() && HEADER_SIZE <= n <= pkgBuf.Length
      modifies fs
      ensures Valid()
    {
      hide RepoSound, Sha256Model.Sha256, Hex, CStr, Render;
      var digest := new Byte[32];
      Sha256Model.Sha256Hash(pkgBuf[..n], digest);
      var line := PkgName(pkgBuf[..n]) + [SPACE] + PkgVersion(pkgBuf[..n]) + [SPACE] + Hex(digest[..]) + [NL];
      SystemNames();
      var _ := fs.Fappend(STINKPKG_LCK, line);
    }

    /** The dependency loop of install_pkg. */
    method InstallDeps(deps: seq<Bytes>, depth: nat, ghost stack: seq<Bytes>) returns (ok: bool)
      requires Valid() && depth < INSTALL_MAX_DEPTH
      requires forall dep | dep in deps :: ValidName(dep) && Chain(repo, stack + [dep])
      requires (forall q | q in stack :: q in repo) && NoneSeen(db, stack)
      modifies this, fs, pkgBuf
      ensures Valid() && old(log) <= log && (old(missed) ==> missed) && (old(failed) ==> failed)
      ensures Grown(old(db), db, stack) && (ok ==> forall dep | dep in deps :: dep !in stack)
      ensures !missed ==> Extends(repo, old(db), db) && (ok ==> forall dep | dep in deps :: Registered(db, dep))
      ensures (forall d | d in deps :: Resolvable(repo, old(db), d, INSTALL_MAX_DEPTH - 1 - depth)) ==> failed || ok
      ensures deps == [] ==> unchanged(pkgBuf) && ok
      decreases INSTALL_MAX_DEPTH - depth, 0
    {
      hide Valid, Render, Chain, Extends, Grown, Registered, NoneSeen, Seen, ValidName, Resolvable;
      NothingAdded(repo, db, stack);
      for i := 0 to |deps|
        invariant Valid() && old(log) <= log && (old(missed) ==> missed) && (old(failed) ==> failed)
        invariant Grown(old(db), db, stack) && old(db) <= db && NoneSeen(db, stack)
        invariant forall k | 0 <= k < i :: deps[k] !in stack
        invariant !missed ==> Extends(repo, old(db), db) && forall k | 0 <= k < i :: Registered(db, deps[k])
        invariant i == 0 ==> unchanged(pkgBuf)
      {
        ghost var before := db;
        ok := InstallPkg(deps[i], depth + 1, false, false, stack);
        GrownPrefix(before, db, stack);
        GrownTransitive(old(db), before, db, stack);
        GrownHides(before, db, stack);
        if !missed {
          ExtendsTransitive(repo, old(db), before, db);
          forall k | 0 <= k < i ensures Registered(db, deps[k]) {
            RegisteredGrows(before, db, deps[k]);
          }
        }
        if !ok {
          assert deps[i] in deps;
          StillResolvable(repo, old(db), before, deps[i], depth + 1);
          return false;
        }
      }
      ok := true;
    }

    /** The dependencies of the archive in the buffer, and the archive once more, since installing
        them has reused the buffer. */
    method ResolveDeps(name: Bytes, fetched: nat, depth: nat, skipDeps: bool, ghost progress: seq<Bytes>)
        returns (n: int)
      requires Valid() && depth < INSTALL_MAX_DEPTH && Genuine(name, fetched)
      requires forall dep | dep in Deps(repo, name) :: Chain(repo, progress + [dep])
      requires (forall q | q in progress :: q in repo) && NoneSeen(db, progress)
      modifies this, fs, pkgBuf
      ensures Valid() && old(log) <= log && (old(missed) ==> missed) && (old(failed) ==> failed)
      ensures n >= 0 ==> Genuine(name, n)
      ensures Grown(old(db), db, progress)
      ensures n >= 0 && !skipDeps ==> forall dep | dep in Deps(repo, name) :: dep !in progress
      ensures !missed ==>
        Extends(repo, old(db), db) && (n >= 0 && !skipDeps ==>
            forall dep | dep in Deps(repo, name) :: Registered(db, dep))
      ensures !failed && (skipDeps || AllResolvable(repo, old(db), name, INSTALL_MAX_DEPTH - 1 - depth)) ==> n >= 0
      decreases INSTALL_MAX_DEPTH - depth, 1
    {
      hide Valid, Render, Chain, Extends, Grown, Registered, NoneSeen, Seen, ValidName, Deps, Tabled, DepsOf,
           RepoSound, Resolvable;
      NothingAdded(repo, db, progress);
      n := fetched;
      Sound();
      ArchiveNames(repo, published, served, name);
      var deps := DepsOf(pkgBuf[..n]);
      if !skipDeps {
        var ok := InstallDeps(deps, depth, progress);
        if !ok {
          return -1;
        }
      }
      if !skipDeps && |deps| > 0 {
        n := FetchAndVerify(name);
      }
    }

    /** install_pkg. `stack` are the names whose installation is in progress; none of them is
        registered by this call, so a request that closes a cycle fails. With neither flag set the
        call adds only names that pkg_installed does not see; as long as no append is lost, each
        behind its dependencies. It succeeds if nothing in its environment fails and the
        dependency tree stays within the depth limit. */
    method InstallPkg(name: Bytes, depth: nat, force: bool, skipDeps: bool, ghost stack: seq<Bytes>) returns (ok: bool)
      requires Valid() && Chain(repo, stack + [name])
      requires (forall q | q in stack :: q in repo) && NoneSeen(db, stack)
      modifies this, fs, pkgBuf
      ensures Valid() && old(db) <= db && old(log) <= log && (old(missed) ==> missed) && (old(failed) ==> failed)
      ensures !force && !skipDeps ==> Grown(old(db), db, stack) && (ok ==> name !in stack)
      ensures !force && !skipDeps && !missed ==> Extends(repo, old(db), db)
      ensures !missed && ok && ValidName(name) ==> Registered(db, name)
      ensures !missed && ok && (force || (ValidName(name) && !Seen(old(db), name))) ==> AddedFor(old(db), db, name)
      ensures depth >= 4 ==> !ok && db == old(db)
      ensures !failed && !force && !skipDeps && ValidName(name) && ResolvableFrom(repo, old(db), name, depth) ==> ok
      decreases if depth < INSTALL_MAX_DEPTH then INSTALL_MAX_DEPTH - depth else 0, 3
    {
      hide Valid, Render, Chain, Extends, Grown, Registered, NoneSeen, Seen, ValidName, Deps, Tabled, DepsOf, RepoSound;
      NothingAdded(repo, db, stack);
      Sound();
      if depth >= INSTALL_MAX_DEPTH {
        return false;
      }
      if !force {
        var found := PkgInstalled(name);
        if found {
          NotInProgress(repo, published, served, db, stack, name);
          return true;
        }
      }
      var n := FetchAndVerify(name);
      if n < 0 {
        return false;
      }
      var pinnedElsewhere: bool := *;  // STINKPKG.PIN asks for another version
      if pinnedElsewhere {
        failed := true;
        return false;
      }
      ok := InstallFetched(name, n, depth, force, skipDeps, stack);
    }

    /** The rest of install_pkg, once the archive is in the buffer. */
    method InstallFetched(name: Bytes, fetched: nat, depth: nat, force: bool, skipDeps: bool, ghost stack: seq<Bytes>)
        returns (ok: bool)
      requires Valid() && Chain(repo, stack + [name]) && depth < INSTALL_MAX_DEPTH && Genuine(name, fetched)
      requires (forall q | q in stack :: q in repo) && NoneSeen(db, stack)
      requires !force && ValidName(name) ==> !Seen(db, name)
      modifies this, fs, pkgBuf
      ensures Valid() && old(db) <= db && old(log) <= log && (old(missed) ==> missed) && (old(failed) ==> failed)
      ensures !force && !skipDeps ==> Grown(old(db), db, stack) && (ok ==> name !in stack)
      ensures !force && !skipDeps && !missed ==> Extends(repo, old(db), db)
      ensures !missed && ok ==> Registered(db, name) && AddedFor(old(db), db, name)
      ensures !failed && !skipDeps && AllResolvable(repo, old(db), name, INSTALL_MAX_DEPTH - 1 - depth) ==> ok
      decreases INSTALL_MAX_DEPTH - depth, 2
    {
      hide Valid, Render, Chain, Extends, Grown, Registered, NoneSeen, Seen, ValidName, Deps, Tabled, DepsOf,
           RepoSound, Resolvable, AllResolvable;
      Sound();
      ArchiveNames(repo, published, served, name);
      ghost var progress := if force then [] else stack + [name];
      InProgress(repo, db, stack, name, progress);
      var n := ResolveDeps(name, fetched, depth, skipDeps, progress);
      ghost var before := db;
      GrownPrefix(old(db), before, progress);
      if !force {
        StackOnly(old(db), before, stack, name);
      }
      if n < 0 {
        return false;
      }
      ok := UnpackVerified(name, n);
      AddedOne(old(db), before, db, name);
      if !force && !skipDeps {
        NoCycle(repo, stack, name);
        NowRegistered(repo, old(db), before, db, stack, name, missed);
      }
    }

    /** A request from the menu. Closure and order hold whatever the size of the database. It stays
        without duplicates as long as the entry before the last addition is visible, and always if
        there is room for every package of the repository; a successful request for a name that is
        registered but not seen makes a duplicate. */
    method Install(name: Bytes) returns (ok: bool)
      requires Valid() && ValidName(name)
      modifies this, fs, pkgBuf
      ensures Valid() && old(db) <= db && old(log) <= log && (old(missed) ==> missed)
      ensures !missed ==> Extends(repo, old(db), db) && (ok ==> Registered(db, name))
      ensures !missed && Closed(repo, old(db)) ==> Closed(repo, db)
      ensures !missed && Closed(repo, old(db)) && ok && name in repo ==> RequirementsMet(repo[name], db)
      ensures NoDuplicates(old(db)) && (db == old(db) || LastVisible(db[..|db| - 1])) ==> NoDuplicates(db)
      ensures NoDuplicates(old(db)) && LastVisible(old(db)) && |db| <= |old(db)| + 1 ==> NoDuplicates(db)
      ensures NoDuplicates(old(db)) && Room(repo, old(db)) ==> NoDuplicates(db) && Room(repo, db)
      ensures !missed && ok && Registered(old(db), name) && !Seen(old(db), name) ==> !NoDuplicates(db)
      ensures !failed && Resolvable(repo, old(db), name, 4) ==> ok
    {
      hide Valid, Extends, Grown, Closed, NoDuplicates, Registered, Render, ValidName, Seen, AddedFor, Resolvable,
           LastVisible, Room, Packaged, RequirementsMet;
      NothingSeen(db);
      NothingAdded(repo, db, [name]);
      ChainOfOne(repo, name);
      AllPackaged();
      ok := InstallPkg(name, 0, false, false, []);
      if !missed && Closed(repo, old(db)) {
        ExtendsKeepsClosed(repo, old(db), db);
        if ok && name in repo {
          AllTabled(name);
          ClosedMeans(repo, db, name);
        }
      }
      AllPackaged();
      StaysDistinct(old(db), db);
      if AddedFor(old(db), db, name) && Registered(old(db), name) {
        AddedTwice(old(db), db, name);
      }
    }

    lemma StaysDistinct(before: seq<Entry>, after: seq<Entry>)
      requires Grown(before, after, []) && forall i | |before| <= i < |after| :: Packaged(repo, after[i])
      ensures NoDuplicates(before) && (after == before || LastVisible(after[..|after| - 1])) ==> NoDuplicates(after)
      ensures NoDuplicates(before) && LastVisible(before) && |after| <= |before| + 1 ==> NoDuplicates(after)
      ensures NoDuplicates(before) && Room(repo, before) ==> NoDuplicates(after) && Room(repo, after)
    {
      hide NoDuplicates, Seen, LastVisible, Room, Packaged;
      if NoDuplicates(before) && (after == before || LastVisible(after[..|after| - 1])) {
        KeepsDistinct(before, after);
      }
      if NoDuplicates(before) && Room(repo, before) {
        RoomKept(repo, before, after);
      }
      assert |after| == |before| + 1 ==> after[..|after| - 1] == before;
    }

    /** Any series of requests, successful or not. */
    method Session(names: seq<Bytes>)
      requires Valid() && forall name | name in names :: ValidName(name)
      modifies this, fs, pkgBuf
      ensures Valid() && old(db) <= db && old(log) <= log
      ensures !missed && Closed(repo, old(db)) ==> Closed(repo, db)
      ensures NoDuplicates(old(db)) && Room(repo, old(db)) ==> NoDuplicates(db) && Room(repo, db)
    {
      hide Valid, Extends, Closed, NoDuplicates, Registered, Render, ValidName, Seen, Resolvable, LastVisible, Room;
      for i := 0 to |names|
        invariant Valid() && old(db) <= db && old(log) <= log
        invariant !missed && Closed(repo, old(db)) ==> Closed(repo, db)
        invariant NoDuplicates(old(db)) && Room(repo, old(db)) ==> NoDuplicates(db) && Room(repo, db)
      {
        var _ := Install(names[i]);
      }
    }
  }

  /** The line that unpack_package appends is an entry. */
  lemma RecordedEntry(repo: Repo, db: seq<Entry>, name: Bytes)
    requires name in repo && SoundArchive(repo[name], name)
    ensures var e := Entry(name, PkgVersion(repo[name]));
            && Render(db + [e]) == Render(db) + DbLine(repo[name])
            && ValidEntry(e) && Packaged(repo, e)
  {
    hide U16At, U32At, Render, ValidEntry, Spares;
    RenderStep(db, Entry(name, PkgVersion(repo[name])));
  }

  /** Some entry for name has been added. */
  ghost predicate AddedFor(db: seq<Entry>, db': seq<Entry>, name: Bytes) {
    exists i :: |db| <= i < |db'| && db'[i].name == name
  }

  lemma AddedTwice(db: seq<Entry>, db': seq<Entry>, name: Bytes)
    requires db <= db' && Registered(db, name) && AddedFor(db, db', name)
    ensures !NoDuplicates(db')
  {
    var i :| 0 <= i < |db| && db[i].name == name;
    var j :| |db| <= j < |db'| && db'[j].name == name;
    assert db'[i].name == db'[j].name;
  }

  /** name can be installed within `levels` levels of recursion: it is seen already, or its archive
      exists and its dependencies can be installed within one level less. */
  ghost predicate Resolvable(repo: Repo, db: seq<Entry>, name: Bytes, levels: nat)
    decreases levels, 0
  {
    levels > 0 && (Seen(db, name) || (name in repo && AllResolvable(repo, db, name, levels - 1)))
  }

  ghost predicate ResolvableFrom(repo: Repo, db: seq<Entry>, name: Bytes, depth: nat) {
    depth < INSTALL_MAX_DEPTH && Resolvable(repo, db, name, INSTALL_MAX_DEPTH - depth)
  }

  ghost predicate AllResolvable(repo: Repo, db: seq<Entry>, name: Bytes, levels: nat)
    decreases levels, 1
  {
    forall dep | dep in Deps(repo, name) :: Resolvable(repo, db, dep, levels)
  }

  lemma {:induction false} ResolvableGrows(repo: Repo, db: seq<Entry>, db': seq<Entry>, name: Bytes, levels: nat)
    requires db <= db' && Resolvable(repo, db, name, levels)
    ensures Resolvable(repo, db', name, levels)
    decreases levels
  {
    hide Deps, Seen;
    if Seen(db, name) {
      SeenGrows(db, db', name);
    } else {
      forall dep | dep in Deps(repo, name) ensures Resolvable(repo, db', dep, levels - 1) {
        ResolvableGrows(repo, db, db', dep, levels - 1);
      }
    }
  }

  lemma StillResolvable(repo: Repo, db: seq<Entry>, db': seq<Entry>, name: Bytes, depth: nat)
    requires db <= db' && depth <= INSTALL_MAX_DEPTH
    ensures Resolvable(repo, db, name, INSTALL_MAX_DEPTH - depth) ==> ResolvableFrom(repo, db', name, depth)
  {
    hide Seen;
    if Resolvable(repo, db, name, INSTALL_MAX_DEPTH - depth) {
      ResolvableGrows(repo, db, db', name, INSTALL_MAX_DEPTH - depth);
    }
  }

  lemma NothingSeen(db: seq<Entry>)
    ensures NoneSeen(db, [])
  {
  }

  lemma ChainOfOne(repo: Repo, name: Bytes)
    ensures Chain(repo, [] + [name])
  {
  }

  lemma GrownPrefix(a: seq<Entry>, b: seq<Entry>, names: seq<Bytes>)
    requires Grown(a, b, names)
    ensures a <= b
  {
  }

  lemma NothingAdded(repo: Repo, db: seq<Entry>, names: seq<Bytes>)
    ensures Extends(repo, db, db) && Grown(db, db, names)
  {
  }

  /** An installed package is not being installed. */
  lemma NotInProgress(repo: Repo, published: map<Bytes, Bytes>, served: map<Bytes, seq<Bytes>>, db: seq<Entry>,
                      stack: seq<Bytes>, name: Bytes)
    requires RepoSound(repo, published, served) && forall q | q in stack :: q in repo
    ensures name in stack ==> ValidName(name)
    ensures NoneSeen(db, stack) && Seen(db, name) ==> name !in stack
    ensures Seen(db, name) ==> Registered(db, name)
  {
    if name in stack {
      ArchiveSound(repo, published, served, name);
    }
  }

  lemma ArchiveNames(repo: Repo, published: map<Bytes, Bytes>, served: map<Bytes, seq<Bytes>>, name: Bytes)
    requires RepoSound(repo, published, served) && name in repo
    ensures Tabled(repo[name]) && Deps(repo, name) == DepsOf(repo[name]) && ValidName(name)
    ensures forall dep | dep in Deps(repo, name) :: ValidName(dep)
  {
    hide DepsOf, Spares;
    ArchiveSound(repo, published, served, name);
  }

  lemma InProgress(repo: Repo, db: seq<Entry>, stack: seq<Bytes>, name: Bytes, progress: seq<Bytes>)
    requires Chain(repo, stack + [name]) && name in repo && (forall q | q in stack :: q in repo)
    requires progress == [] || progress == stack + [name]
    ensures forall q | q in progress :: q in repo
    ensures forall dep | dep in Deps(repo, name) :: Chain(repo, progress + [dep])
    ensures progress == [] || (NoneSeen(db, stack) && !Seen(db, name)) ==> NoneSeen(db, progress)
  {
    hide Seen, Deps;
    forall dep | dep in Deps(repo, name) ensures Chain(repo, progress + [dep]) {
      var all := progress + [dep];
      forall k | 0 <= k < |all| - 1 ensures Step(repo, all, k) {
        if k < |progress| - 1 {
          assert Step(repo, stack + [name], k);
        }
      }
    }
  }

  lemma StackOnly(a: seq<Entry>, b: seq<Entry>, stack: seq<Bytes>, name: Bytes)
    requires Grown(a, b, stack + [name]) && !Seen(a, name)
    ensures Grown(a, b, stack) && !Seen(b, name)
  {
    hide Seen;
    assert name in stack + [name];
    GrownFewer(a, b, stack + [name], stack);
    GrownFewer(a, b, stack + [name], [name]);
    GrownHides(a, b, [name]);
  }

  /** If no dependency of name is in progress, name is not in progress either: its successor in the
      chain would be such a dependency. */
  lemma NoCycle(repo: Repo, stack: seq<Bytes>, name: Bytes)
    requires Chain(repo, stack + [name])
    requires forall dep | dep in Deps(repo, name) :: dep !in stack + [name]
    ensures name !in stack
  {
    hide Deps;
    var all := stack + [name];
    forall j | 0 <= j < |stack| ensures stack[j] != name {
      assert Step(repo, all, j);
      assert all[j + 1] in all;
    }
  }

  lemma AddedOne(start: seq<Entry>, before: seq<Entry>, db: seq<Entry>, name: Bytes)
    requires start <= before && (db == before || Adds(before, db, name))
    ensures start <= db
    ensures Adds(before, db, name) ==> Registered(db, name) && AddedFor(start, db, name)
  {
  }

  lemma NowRegistered(repo: Repo, start: seq<Entry>, before: seq<Entry>, db: seq<Entry>, stack: seq<Bytes>,
                      name: Bytes, missed: bool)
    requires Grown(start, before, stack) && name !in stack && !Seen(before, name)
    requires !missed ==> Extends(repo, start, before) && forall dep | dep in Deps(repo, name) :: Registered(before, dep)
    requires db == before || Adds(before, db, name)
    ensures Grown(start, db, stack) && (!missed ==> Extends(repo, start, db))
  {
    hide Extends, Grown, Registered, Deps, Seen;
    if db != before {
      var e := db[|before|];
      assert db == before + [e];
      GrownByOne(start, before, e, stack);
      if !missed {
        ExtendsByOne(repo, start, before, e);
      }
    }
  }

  /** db' is db with one more entry, for name. */
  ghost predicate Adds(db: seq<Entry>, db': seq<Entry>, name: Bytes) {
    |db'| == |db| + 1 && db == db'[..|db|] && db'[|db|].name == name
  }

  /** Each name is a dependency of the one before it. */
  ghost predicate Chain(repo: Repo, names: seq<Bytes>) {
    forall k | 0 <= k < |names| - 1 :: Step(repo, names, k)
  }

  /** A sound repository: every archive is well formed, carries its own name, valid dependency names,
      and no file called STINKDB or REPO_INDEX; the index has its digest; and no other answer of the
      server has that digest. */
  ghost predicate RepoSound(repo: Repo, published: map<Bytes, Bytes>, served: map<Bytes, seq<Bytes>>) {
    && (forall name | name in repo :: SoundArchive(repo[name], name) && Published(repo[name], published, name))
    && (forall name, k | name in served && 0 <= k < |served[name]| ::
          SoundAnswer(repo, published, name, served[name][k]))
  }

  ghost predicate SoundArchive(d: Bytes, name: Bytes) {
    && Tabled(d) && |d| <= MAX_PKG_BYTES && Spares(d, STINKDB) && Spares(d, REPO_INDEX)
    && PkgName(d) == name && ValidEntry(Entry(name, PkgVersion(d)))
    && forall dep | dep in DepsOf(d) :: ValidName(dep)
  }

  ghost predicate Published(d: Bytes, published: map<Bytes, Bytes>, name: Bytes) {
    name in published && published[name] == Sha256Model.Sha256(d)
  }

  ghost predicate SoundAnswer(repo: Repo, published: map<Bytes, Bytes>, name: Bytes, body: Bytes) {
    && |body| <= MAX_PKG_BYTES
    && (name in published && Sha256Model.Sha256(body) == published[name] ==> name in repo && body == repo[name])
  }

  lemma AnswersFit(repo: Repo, published: map<Bytes, Bytes>, served: map<Bytes, seq<Bytes>>, name: Bytes, k: nat)
    requires RepoSound(repo, published, served) && name in served && k < |served[name]|
    ensures |served[name][k]| <= MAX_PKG_BYTES
  {
    hide Sha256Model.Sha256, SoundArchive;
    assert SoundAnswer(repo, published, name, served[name][k]);
  }

  lemma VerifiedIsGenuine(repo: Repo, published: map<Bytes, Bytes>, served: map<Bytes, seq<Bytes>>, name: Bytes,
                          body: Bytes)
    requires RepoSound(repo, published, served) && name in served && body in served[name]
    requires name in published && Sha256Model.Sha256(body) == published[name]
    ensures name in repo && body == repo[name]
  {
    hide Sha256Model.Sha256, SoundArchive;
    var k :| 0 <= k < |served[name]| && served[name][k] == body;
    assert SoundAnswer(repo, published, name, served[name][k]);
  }

  lemma ArchiveSound(repo: Repo, published: map<Bytes, Bytes>, served: map<Bytes, seq<Bytes>>, name: Bytes)
    requires RepoSound(repo, published, served) && name in repo
    ensures SoundArchive(repo[name], name) && Published(repo[name], published, name)
  {
    hide Sha256Model.Sha256, SoundArchive, Published;
  }

  lemma FailedUnpack(files: map<Bytes, Bytes>, files': map<Bytes, Bytes>, d: Bytes)
    requires Tabled(d) && Spares(d, STINKDB) && Spares(d, REPO_INDEX)
    requires files' == files || exists n :: PartlyWritten(files, files', d, n)
    ensures Contents(files', STINKDB) == Contents(files, STINKDB)
    ensures Contents(files', REPO_INDEX) == Contents(files, REPO_INDEX)
  {
    hide FileCount, BodyInside, WriteFiles, Spares, Stored;
    SystemNames();
    if files' != files {
      var n :| PartlyWritten(files, files', d, n);
      WritesSpare(files, d, n, STINKDB);
      WritesSpare(files, d, n, REPO_INDEX);
    }
  }

  lemma RenderStep(db: seq<Entry>, e: Entry)
    ensures Render(db + [e]) == Render(db) + (e.name + [SPACE] + e.version + [NL])
  {
    assert (db + [e])[..|db|] == db;
  }
}
