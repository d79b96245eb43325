/** unpack_package and its conflict check, apps/stinkpkg.c. */
module PkgUnpackModel {
  import opened Common
  import opened PkgContainerModel
  import opened StinkFsModel

  const MANIFEST_MAX := 1024

  // ---------------------------------------------------------------- lines of a text

  predicate LineEnd(c: Byte) {
    c == NL || c == 0
  }

  predicate StartsLine(text: Bytes, a: int)
    requires 0 <= a <= |text|
  {
    a == 0 || LineEnd(text[a - 1])
  }

  /** text[a..b] is a line, without its terminator. */
  ghost predicate IsLine(text: Bytes, a: int, b: int) {
    && 0 <= a <= b <= |text| && StartsLine(text, a) && (b == |text| || LineEnd(text[b]))
    && forall k | a <= k < b :: !LineEnd(text[k])
  }

  ghost predicate HasLine(text: Bytes, line: Bytes) {
    exists a, b :: IsLine(text, a, b) && text[a..b] == line
  }

  /** How many leading characters of target the text has from `at` on, up to `end`. */
  method Match(text: Bytes, at: nat, end: nat, target: Bytes) returns (k: nat)
    requires at <= end <= |text|
    ensures k <= |target| && at + k <= end && text[at..at + k] == target[..k]
    ensures k == |target| || at + k == end || text[at + k] != target[k]
  {
    k := 0;
    while k < |target| && at + k < end && text[at + k] == target[k]
      invariant k <= |target| && at + k <= end && text[at..at + k] == target[..k]
    {
      k := k + 1;
    }
  }

  /** line_starts_with: in spite of its name it looks for the whole line. */
  method LineStartsWith(text: Bytes, target: Bytes) returns (found: bool)
    ensures found <==> HasLine(text, target)
  {
    var ls := 0;
    for i := 0 to |text| + 1
      invariant ls <= i && (ls <= |text| ==> StartsLine(text, ls)) && (i == |text| + 1 ==> ls == i)
      invariant forall k | ls <= k < i && k < |text| :: !LineEnd(text[k])
      invariant forall a, b | IsLine(text, a, b) && b < i :: text[a..b] != target
      invariant forall a, b | IsLine(text, a, b) && b >= i :: a >= ls
    {
      if i == |text| || LineEnd(text[i]) {
        var k := Match(text, ls, i, target);
        assert IsLine(text, ls, i);
        if k == |target| && ls + k == i {
          return true;
        }
        assert text[ls..i] != target;
        ls := i + 1;
      }
    }
    return false;
  }

  // ---------------------------------------------------------------- conflict check

  function ListName(pkg: Bytes): Bytes {
    PKG_DASH + pkg + DOT_LST
  }

  predicate IsManifest(en: Bytes) {
    |en| >= 8 && en[..4] == PKG_DASH && en[|en| - 4..] == DOT_LST
  }

  /** File en is the manifest of some other package and lists fname. */
  ghost predicate Claims(files: map<Bytes, Bytes>, en: Bytes, self: Bytes, fname: Bytes) {
    && en in files && IsManifest(en) && en != ListName(self)
    && |files[en]| > 0 && HasLine(Prefix(files[en], MANIFEST_MAX), fname)
  }

  ghost predicate Claimed(files: map<Bytes, Bytes>, self: Bytes, fname: Bytes) {
    exists en :: Claims(files, en, self, fname)
  }

  /** No stored name is longer than a directory entry. */
  ghost predicate Canonical(files: map<Bytes, Bytes>) {
    forall name | name in files :: |name| <= NAME_MAX
  }

  /** The scan for the package's own manifest. */
  method IsSelf(en: Bytes, self: Bytes) returns (own: bool)
    requires IsManifest(en)
    ensures own <==> en == ListName(self)
  {
    var s := Match(en, 4, |en|, self);
    own := s == |self| && 4 + s == |en| - 4;
    if own {
      assert en == en[..4] + en[4..4 + s] + en[4 + s..];
    }
  }

  method FilenameClaimedElsewhere(fs: Fs, fname: Bytes, self: Bytes) returns (claimed: bool)
    requires Canonical(fs.files)
    ensures claimed <==> Claimed(fs.files, self, fname)
  {
    hide HasLine, ListName;
    var names := fs.Directory();
    for i := 0 to |names|
      invariant forall k | 0 <= k < i :: !Claims(fs.files, names[k], self, fname)
    {
      var en := names[i];
      assert en in fs.files;
      if !IsManifest(en) {
        continue;
      }
      var own := IsSelf(en, self);
      if own {
        continue;
      }
      var n, manifest := fs.Fread(en, MANIFEST_MAX);
      if n <= 0 {
        continue;
      }
      var found := LineStartsWith(manifest, fname);
      if found {
        assert Claims(fs.files, en, self, fname);
        return true;
      }
    }
    forall en ensures !Claims(fs.files, en, self, fname) {
    }
    return false;
  }

  // ---------------------------------------------------------------- unpacking

  /** The file system after the first n files of the archive have been written. */
  function WriteFiles(files: map<Bytes, Bytes>, d: Bytes, n: nat): map<Bytes, Bytes>
    requires Tabled(d) && n <= FileCount(d) && forall i | 0 <= i < n :: BodyInside(d, i)
  {
    if n == 0 then files else WriteFiles(files, d, n - 1)[Stored(FileName(d, n - 1)) := Body(d, n - 1)]
  }

  /** The names of the first n files, one a line. */
  function Listing(d: Bytes, n: nat): Bytes
    requires Tabled(d) && n <= FileCount(d)
  {
    if n == 0 then [] else Listing(d, n - 1) + FileName(d, n - 1) + [NL]
  }

  function DbLine(d: Bytes): Bytes
    requires |d| >= HEADER_SIZE
  {
    PkgName(d) + [SPACE] + PkgVersion(d) + [NL]
  }

  /** The package's own name as the conflict check sees it, at most 31 characters. */
  function SelfName(d: Bytes): Bytes
    requires |d| >= HEADER_SIZE
  {
    CStr(d[8..39])
  }

  /** What a successful unpack leaves behind; the last two writes are not checked. */
  ghost predicate Installed(files: map<Bytes, Bytes>, files': map<Bytes, Bytes>, d: Bytes, listed: bool, recorded: bool)
    requires Tabled(d)
  {
    && (forall i | 0 <= i < FileCount(d) :: BodyInside(d, i))
    && var f1 := WriteFiles(files, d, FileCount(d));
       var manifest := Prefix(Listing(d, FileCount(d)), MANIFEST_MAX - 1);
       var f2 := if listed then f1[Stored(ListName(PkgName(d))) := manifest] else f1;
       files' == if recorded then f2[STINKDB := Contents(f2, STINKDB) + DbLine(d)] else f2
  }

  /** Copies a NUL-padded field into a text that grows at `at`. */
  method AddField(buf: array<Byte>, at: nat, field: Bytes) returns (end: nat)
    requires at + |field| <= buf.Length
    modifies buf
    ensures end == at + |CStr(field)| && buf[..end] == old(buf[..at]) + CStr(field)
  {
    ghost var s := CStr(field);
    var i := 0;
    while i < |field| && field[i] != 0
      invariant i <= |s| && buf[..at + i] == old(buf[..at]) + s[..i]
    {
      buf[at + i] := field[i];
      i := i + 1;
    }
    end := at + i;
  }

  method AddText(buf: array<Byte>, at: nat, text: Bytes) returns (end: nat)
    requires at + |text| <= buf.Length
    modifies buf
    ensures end == at + |text| && buf[..end] == old(buf[..at]) + text
  {
    for i := 0 to |text|
      invariant buf[..at + i] == old(buf[..at]) + text[..i]
    {
      buf[at + i] := text[i];
    }
    end := at + |text|;
  }

  /** One line of the manifest, as far as there is room for it and a terminator. */
  method AddLine(manifest: array<Byte>, m: nat, field: Bytes) returns (end: nat)
    requires manifest.Length == MANIFEST_MAX && m < MANIFEST_MAX
    modifies manifest
    ensures end < MANIFEST_MAX
    ensures manifest[..end] == Prefix(old(manifest[..m]) + CStr(field) + [NL], MANIFEST_MAX - 1)
  {
    ghost var s := CStr(field);
    end := m;
    var k := 0;
    while k < |field| && field[k] != 0
      invariant k <= |s| && end == m + k < MANIFEST_MAX && manifest[..end] == old(manifest[..m]) + s[..k]
    {
      if end + 1 >= MANIFEST_MAX {
        break;
      }
      manifest[end] := field[k];
      end, k := end + 1, k + 1;
    }
    if end + 1 < MANIFEST_MAX {
      assert k == |s|;
      manifest[end] := NL;
      end := end + 1;
    }
  }

  /** Some file of the archive belongs to another package. */
  ghost predicate Conflict(files: map<Bytes, Bytes>, d: Bytes)
    requires Tabled(d)
  {
    exists i :: 0 <= i < FileCount(d) && ClaimedFile(files, d, i)
  }

  ghost predicate ClaimedFile(files: map<Bytes, Bytes>, d: Bytes, i: nat)
    requires Tabled(d) && i < FileCount(d)
  {
    Claimed(files, SelfName(d), FileName(d, i))
  }

  /** The conflict check over all files of the archive. */
  method AnyClaimed(fs: Fs, data: Bytes) returns (claimed: bool)
    requires Canonical(fs.files) && Tabled(data)
    ensures claimed <==> Conflict(fs.files, data)
  {
    hide Claimed, CStr, U32At;
    var thisPkg := CStr(data[8..39]);
    for i := 0 to FileCount(data)
      invariant forall k | 0 <= k < i :: !ClaimedFile(fs.files, data, k)
    {
      var fname := CStr(data[EntryAt(data, i)..EntryAt(data, i) + NAME_LEN]);
      claimed := FilenameClaimedElsewhere(fs, fname, thisPkg);
      if claimed {
        assert ClaimedFile(fs.files, data, i);
        return true;
      }
    }
    return false;
  }

  /** Every body lies inside the data. */
  ghost predicate AllInside(d: Bytes)
    requires Tabled(d)
  {
    forall i | 0 <= i < FileCount(d) :: BodyInside(d, i)
  }

  /** The outcomes of the first n writes since `before`. */
  ghost function FileWrites(before: seq<bool>, after: seq<bool>, n: nat): seq<bool>
    requires |before| <= |after|
  {
    var since := after[|before|..];
    if |since| <= n then since else since[..n]
  }

  /** The loop that writes the files and collects their names: it gives up on a body outside the
      data and on a failed write, and on nothing else. */
  method WriteOut(fs: Fs, data: Bytes, manifest: array<Byte>) returns (ok: bool, m: nat)
    requires Tabled(data) && manifest.Length == MANIFEST_MAX
    modifies fs, manifest
    ensures old(fs.writes) <= fs.writes
    ensures ok <==> AllInside(data) && false !in FileWrites(old(fs.writes), fs.writes, FileCount(data))
    ensures ok ==>
      && fs.files == WriteFiles(old(fs.files), data, FileCount(data))
      && |fs.writes| == |old(fs.writes)| + FileCount(data)
      && m < MANIFEST_MAX && manifest[..m] == Prefix(Listing(data, FileCount(data)), MANIFEST_MAX - 1)
    ensures !ok ==> exists n :: PartlyWritten(old(fs.files), fs.files, data, n)
  {
    hide CStr, U32At, Body, BodyInside, FileCount, WriteFiles, Listing;
    m := 0;
    NoneWritten(fs.files, data);
    for i := 0 to FileCount(data)
      invariant forall k | 0 <= k < i :: BodyInside(data, k)
      invariant fs.files == WriteFiles(old(fs.files), data, i)
      invariant old(fs.writes) <= fs.writes && |fs.writes| == |old(fs.writes)| + i
      invariant forall k | |old(fs.writes)| <= k < |fs.writes| :: fs.writes[k]
      invariant m < MANIFEST_MAX && manifest[..m] == Prefix(Listing(data, i), MANIFEST_MAX - 1)
    {
      assert PartlyWritten(old(fs.files), fs.files, data, i);
      if !BodyInside(data, i) {
        return false, m;
      }
      var field := data[EntryAt(data, i)..EntryAt(data, i) + NAME_LEN];
      var ok1 := fs.Fwrite(CStr(field), Body(data, i));
      if !ok1 {
        assert FileWrites(old(fs.writes), fs.writes, FileCount(data))[i] == false;
        return false, m;
      }
      OneWritten(old(fs.files), data, i);
      m := AddLine(manifest, m, field);
      PrefixGrows(Listing(data, i), CStr(field) + [NL], MANIFEST_MAX - 1);
    }
    ok := true;
  }

  lemma NoneWritten(files: map<Bytes, Bytes>, d: Bytes)
    requires Tabled(d)
    ensures WriteFiles(files, d, 0) == files && Listing(d, 0) == []
  {
  }

  lemma OneWritten(files: map<Bytes, Bytes>, d: Bytes, i: nat)
    requires Tabled(d) && i < FileCount(d) && forall k | 0 <= k <= i :: BodyInside(d, k)
    ensures WriteFiles(files, d, i + 1) == WriteFiles(files, d, i)[Stored(FileName(d, i)) := Body(d, i)]
    ensures Listing(d, i + 1) == Listing(d, i) + (FileName(d, i) + [NL])
  {
    hide CStr, U32At, Body, BodyInside;
    assert Listing(d, i + 1) == Listing(d, i) + FileName(d, i) + [NL];
  }

  /** A failed unpack has written some of the files and nothing else. */
  ghost predicate PartlyWritten(files: map<Bytes, Bytes>, files': map<Bytes, Bytes>, d: Bytes, n: nat) {
    && Tabled(d) && n <= FileCount(d) && (forall i | 0 <= i < n :: BodyInside(d, i))
    && files' == WriteFiles(files, d, n)
  }

  lemma PrefixGrows(s: Bytes, more: Bytes, max: nat)
    ensures Prefix(Prefix(s, max) + more, max) == Prefix(s + more, max)
  {
  }

  /** It succeeds exactly if the header is acceptable, no name is claimed by another package, every
      body lies inside the data and every file is written. */
  method UnpackPackage(fs: Fs, data: Bytes) returns (ok: bool, ghost listed: bool, ghost recorded: bool)
    requires Canonical(fs.files) && (Acceptable(data) ==> Tabled(data))
    modifies fs
    ensures Canonical(fs.files) && old(fs.writes) <= fs.writes
    ensures ok <==> Acceptable(data) && !Conflict(old(fs.files), data) && AllInside(data)
                    && false !in FileWrites(old(fs.writes), fs.writes, FileCount(data))
    ensures ok ==> |fs.writes| == |old(fs.writes)| + FileCount(data) + 2
                   && listed == fs.writes[|fs.writes| - 2] && recorded == fs.writes[|fs.writes| - 1]
    ensures ok ==> Acceptable(data) && Installed(old(fs.files), fs.files, data, listed, recorded)
    ensures !ok ==> fs.files == old(fs.files) || exists n :: PartlyWritten(old(fs.files), fs.files, data, n)
    ensures !Acceptable(data) ==> fs.files == old(fs.files)
    ensures Acceptable(data) && Conflict(old(fs.files), data) ==> fs.files == old(fs.files)
  {
    hide Conflict, CStr, U32At, Body, BodyInside, WriteFiles, Listing, ListName, AllInside, FileWrites, FileCount;
    listed, recorded := false, false;
    if !Acceptable(data) {
      return false, false, false;
    }
    var claimed := AnyClaimed(fs, data);
    if claimed {
      return false, false, false;
    }
    var manifest := new Byte[MANIFEST_MAX];
    var m;
    ok, m := WriteOut(fs, data, manifest);
    if !ok {
      ghost var n :| PartlyWritten(old(fs.files), fs.files, data, n);
      WriteCanonical(old(fs.files), data, n);
      return;
    }
    ghost var written := fs.writes;
    AllCanonical(old(fs.files), data);
    listed, recorded := Register(fs, data, manifest[..m]);
    MoreWrites(old(fs.writes), written, fs.writes, FileCount(data));
    ok := true;
  }

  /** The manifest and the database line; neither result is looked at. */
  method Register(fs: Fs, data: Bytes, manifest: Bytes) returns (ghost listed: bool, ghost recorded: bool)
    requires |data| >= HEADER_SIZE && Canonical(fs.files)
    modifies fs
    ensures Canonical(fs.files) && fs.writes == old(fs.writes) + [listed, recorded]
    ensures var f2 := if listed then old(fs.files)[Stored(ListName(PkgName(data))) := manifest] else old(fs.files);
            fs.files == if recorded then f2[STINKDB := Contents(f2, STINKDB) + DbLine(data)] else f2
  {
    hide CStr, ListName, DbLine;
    var listname := BuildListName(data);
    listed := fs.Fwrite(listname, manifest);
    var dbline := BuildDbLine(data);
    recorded := fs.Fappend(STINKDB, dbline);
  }

  /** Later writes are not counted among those of the files. */
  lemma MoreWrites(before: seq<bool>, mid: seq<bool>, after: seq<bool>, n: nat)
    requires before <= mid && |mid| == |before| + n && mid <= after
    ensures FileWrites(before, after, n) == FileWrites(before, mid, n)
  {
    assert after[|before|..][..n] == mid[|before|..];
  }

  lemma AllCanonical(files: map<Bytes, Bytes>, d: Bytes)
    requires Canonical(files) && Tabled(d) && AllInside(d)
    ensures forall i | 0 <= i < FileCount(d) :: BodyInside(d, i)
    ensures Canonical(WriteFiles(files, d, FileCount(d)))
  {
    WriteCanonical(files, d, FileCount(d));
  }

  lemma {:induction false} WriteCanonical(files: map<Bytes, Bytes>, d: Bytes, n: nat)
    requires Canonical(files) && Tabled(d) && n <= FileCount(d) && forall i | 0 <= i < n :: BodyInside(d, i)
    ensures Canonical(WriteFiles(files, d, n))
  {
    hide CStr, U32At, Body, BodyInside;
    if n > 0 {
      WriteCanonical(files, d, n - 1);
    }
  }

  method BuildListName(data: Bytes) returns (name: Bytes)
    requires |data| >= HEADER_SIZE
    ensures name == ListName(PkgName(data))
  {
    hide CStr;
    var listname := new Byte[64];
    var li := AddText(listname, 0, PKG_DASH);
    li := AddField(listname, li, data[8..40]);
    li := AddText(listname, li, DOT_LST);
    name := listname[..li];
  }

  method BuildDbLine(data: Bytes) returns (line: Bytes)
    requires |data| >= HEADER_SIZE
    ensures line == DbLine(data)
  {
    hide CStr;
    var dbline := new Byte[64];
    var di := AddField(dbline, 0, data[8..40]);
    di := AddText(dbline, di, [SPACE]);
    di := AddField(dbline, di, data[40..56]);
    di := AddText(dbline, di, [NL]);
    line := dbline[..di];
  }

  // ---------------------------------------------------------------- build, then unpack

  /** The manifest text that belongs to a list of files. */
  function Manifest(files: seq<File>): Bytes {
    if files == [] then [] else Manifest(files[..|files| - 1]) + files[|files| - 1].name + [NL]
  }

  /** No two of the names that a package writes are the same to the file system. */
  ghost predicate NamesApart(p: Package) {
    && (forall i, j | 0 <= i < j < |p.files| :: Stored(p.files[i].name) != Stored(p.files[j].name))
    && (forall i | 0 <= i < |p.files| ::
          Stored(p.files[i].name) != Stored(ListName(p.name)) && Stored(p.files[i].name) != STINKDB)
  }

  /** The uncompressed archive of a package. */
  ghost function Archive(p: Package): Bytes
    requires Texts(p)
  {
    Container(p, 0, Payload(p.files, None))
  }

  /** A package that the builder can write and whose archive addresses fit 32 bits. */
  ghost predicate Buildable(p: Package) {
    Texts(p) && NoNuls(p) && Packable(p, 0, Payload(p.files, None)) && |Archive(p)| < U32
  }

  /** The reader sees the package in the data. */
  ghost predicate Reads(d: Bytes, p: Package) {
    && Tabled(d) && FileCount(d) == |p.files| && PkgName(d) == p.name && PkgVersion(d) == p.version
    && forall i | 0 <= i < |p.files| :: ReadsFile(d, p, i)
  }

  ghost predicate ReadsFile(d: Bytes, p: Package, i: nat)
    requires Tabled(d) && FileCount(d) == |p.files| && i < |p.files|
  {
    FileName(d, i) == p.files[i].name && BodyInside(d, i) && Body(d, i) == p.files[i].data
  }

  lemma ArchiveReads(p: Package)
    requires Buildable(p)
    ensures Reads(Archive(p), p)
  {
    hide Container, CStr, Texts, NoNuls, Packable, U32At, U16At, PayloadStart, Body, BodyInside;
    ContainerLayout(p, 0, Payload(p.files, None));
    forall i | 0 <= i < |p.files| ensures ReadsFile(Archive(p), p, i) {
      FileReads(p, 0, i);
    }
  }

  lemma {:induction false} ListingIs(d: Bytes, p: Package, n: nat)
    requires Reads(d, p) && n <= |p.files|
    ensures Listing(d, n) == Manifest(p.files[..n])
  {
    hide FileName, BodyInside, Body, FileCount, PkgName, PkgVersion, Tabled;
    if n > 0 {
      ListingIs(d, p, n - 1);
      assert ReadsFile(d, p, n - 1);
      assert p.files[..n][..n - 1] == p.files[..n - 1];
    }
  }

  /** None of the first n files goes by this name. */
  ghost predicate Untouched(p: Package, n: nat, name: Bytes)
    requires n <= |p.files|
  {
    forall i | 0 <= i < n :: Stored(p.files[i].name) != name
  }

  /** After the first n writes each of the first n files is there, and nothing else has changed. */
  lemma {:induction false} FilesThere(d: Bytes, p: Package, files: map<Bytes, Bytes>, n: nat)
    requires Reads(d, p) && NamesApart(p) && n <= |p.files|
    ensures forall i | 0 <= i < n :: BodyInside(d, i)
    ensures var m := WriteFiles(files, d, n);
            && (forall i | 0 <= i < n :: Stored(p.files[i].name) in m && m[Stored(p.files[i].name)] == p.files[i].data)
            && (forall name | Untouched(p, n, name) ::
                  (name in m <==> name in files) && (name in m ==> m[name] == files[name]))
  {
    hide FileName, BodyInside, Body, FileCount, PkgName, PkgVersion, Tabled, Stored;
    if n > 0 {
      FilesThere(d, p, files, n - 1);
      assert ReadsFile(d, p, n - 1);
    }
  }

  /** Everything an installed package leaves behind. */
  ghost predicate Delivered(files: map<Bytes, Bytes>, files': map<Bytes, Bytes>, p: Package, listed: bool,
                            recorded: bool) {
    && (forall i | 0 <= i < |p.files| ::
          Stored(p.files[i].name) in files' && files'[Stored(p.files[i].name)] == p.files[i].data)
    && (listed ==> Contents(files', ListName(p.name)) == Prefix(Manifest(p.files), MANIFEST_MAX - 1))
    && (recorded ==> Contents(files', STINKDB) == Contents(files, STINKDB) + p.name + [SPACE] + p.version + [NL])
    && (forall name | name != STINKDB && name != Stored(ListName(p.name)) && Untouched(p, |p.files|, name) ::
          (name in files' <==> name in files) && (name in files' ==> files'[name] == files[name]))
  }

  /** Unpacking what the builder wrote delivers the package. */
  lemma RoundTrip(p: Package, files: map<Bytes, Bytes>, files': map<Bytes, Bytes>, listed: bool, recorded: bool)
    requires Buildable(p) && NamesApart(p) && Tabled(Archive(p))
    requires Installed(files, files', Archive(p), listed, recorded)
    ensures Delivered(files, files', p, listed, recorded)
  {
    hide Container, Texts, NoNuls, Packable, Reads;
    ArchiveReads(p);
    Unpacked(Archive(p), p, files, files', listed, recorded);
  }

  lemma Unpacked(d: Bytes, p: Package, files: map<Bytes, Bytes>, files': map<Bytes, Bytes>, listed: bool,
                 recorded: bool)
    requires Reads(d, p) && NamesApart(p) && Installed(files, files', d, listed, recorded)
    ensures Delivered(files, files', p, listed, recorded)
  {
    hide FileName, BodyInside, Body, PkgName, PkgVersion, Tabled, Stored, WriteFiles, Listing, ListName,
         ReadsFile, Manifest, Prefix, Untouched, NamesApart;
    FilesThere(d, p, files, |p.files|);
    ListingIs(d, p, |p.files|);
    assert p.files[..|p.files|] == p.files;
    NamesReserved(p);
  }

  /** Manifest, database and files are all different. */
  lemma NamesReserved(p: Package)
    requires NamesApart(p)
    ensures Untouched(p, |p.files|, STINKDB) && Untouched(p, |p.files|, Stored(ListName(p.name)))
    ensures Stored(STINKDB) == STINKDB && Stored(ListName(p.name)) != STINKDB
  {
    assert Stored(ListName(p.name))[0] == PKG_DASH[0];
  }

  lemma ArchiveAcceptable(p: Package)
    requires Buildable(p)
    ensures Tabled(Archive(p)) && Acceptable(Archive(p))
  {
    hide Container, CStr, Texts, NoNuls, Packable, U32At, U16At, PayloadStart;
    ContainerLayout(p, 0, Payload(p.files, None));
  }

  lemma FlagsRead(p: Package, flags: nat, payload: Bytes)
    requires Texts(p) && NoNuls(p) && Packable(p, flags, payload)
    ensures var c := Container(p, flags, payload);
            |c| >= HEADER_SIZE && U16At(c, 6) == flags
  {
    hide *;
    ContainerLayout(p, flags, payload);
    TabledHeader(Container(p, flags, payload));
  }

  lemma TabledHeader(d: Bytes)
    requires Tabled(d)
    ensures |d| >= HEADER_SIZE
  {
  }

  lemma OddFlags(d: Bytes)
    requires |d| >= HEADER_SIZE && U16At(d, 6) == FLAG_COMPRESSED
    ensures !Acceptable(d)
  {
    hide U16At, U32At;
  }

  /** A compressed archive is refused. */
  lemma CompressedRefused(p: Package, payload: Bytes)
    requires Texts(p) && NoNuls(p) && Packable(p, FLAG_COMPRESSED, payload)
    ensures !Acceptable(Container(p, FLAG_COMPRESSED, payload))
  {
    hide Container, Texts, NoNuls, Packable, Acceptable, U16At;
    FlagsRead(p, FLAG_COMPRESSED, payload);
    OddFlags(Container(p, FLAG_COMPRESSED, payload));
  }

  /** No other package claims one of the names. */
  ghost predicate Unclaimed(files: map<Bytes, Bytes>, p: Package) {
    forall i | 0 <= i < |p.files| :: !Claimed(files, p.name, p.files[i].name)
  }

  /** The reader's conflict check and the reader's bounds, for an archive of the builder. */
  lemma ArchiveChecks(p: Package, files: map<Bytes, Bytes>)
    requires Buildable(p)
    ensures Reads(Archive(p), p) && AllInside(Archive(p))
    ensures Conflict(files, Archive(p)) <==> !Unclaimed(files, p)
  {
    hide Container, CStr, Texts, NoNuls, Packable, U32At, U16At, PayloadStart, Body, BodyInside, Claimed,
         FileName, PkgName, PkgVersion;
    var d := Archive(p);
    ArchiveReads(p);
    ArchiveSelf(p);
    forall i | 0 <= i < |p.files| ensures FileName(d, i) == p.files[i].name && BodyInside(d, i) {
      assert ReadsFile(d, p, i);
    }
    if Conflict(files, d) {
      var i :| 0 <= i < FileCount(d) && ClaimedFile(files, d, i);
      assert Claimed(files, p.name, p.files[i].name);
    }
    if !Unclaimed(files, p) {
      var i :| 0 <= i < |p.files| && Claimed(files, p.name, p.files[i].name);
      assert ClaimedFile(files, d, i);
    }
  }

  lemma ArchiveSelf(p: Package)
    requires Buildable(p)
    ensures |Archive(p)| >= HEADER_SIZE && SelfName(Archive(p)) == p.name
  {
    hide Container, NoNuls, Packable, U32At, U16At, PayloadStart;
    var d := Archive(p);
    ContainerLayout(p, 0, Payload(p.files, None));
    ShorterField(d[8..40], p.name);
    assert d[8..40][..31] == d[8..39];
  }

  /** The last byte of a name field is never part of the name. */
  lemma ShorterField(field: Bytes, name: Bytes)
    requires |field| == NAME_LEN && CStr(field) == name && |name| < NAME_LEN
    ensures CStr(field[..NAME_LEN - 1]) == name
  {
    var r := CStr(field[..NAME_LEN - 1]);
    SameCStr(field[..NAME_LEN - 1], r, name);
  }

  lemma SameCStr(s: Bytes, r: Bytes, t: Bytes)
    requires |r| <= |s| && |t| <= |s| && r == s[..|r|] && t == s[..|t|] && 0 !in r && 0 !in t
    requires |r| < |s| ==> s[|r|] == 0
    requires |t| < |s| ==> s[|t|] == 0
    ensures r == t
  {
    assert forall k | 0 <= k < |r| :: s[k] == r[k];
    assert forall k | 0 <= k < |t| :: s[k] == t[k];
  }

  /** The builder's output, unpacked. The archive is written exactly if the package can be packed;
      it is installed exactly if no other package claims one of its names and every file write
      succeeds; then the package is delivered. Only a failing disk can keep an unclaimed package
      from being installed with its manifest and its database line. */
  method BuildAndUnpack(fs: Fs, p: Package)
      returns (archive: Option<Bytes>, ok: bool, ghost listed: bool, ghost recorded: bool)
    requires Canonical(fs.files) && NoNuls(p) && NamesApart(p)
    modifies fs
    ensures old(fs.writes) <= fs.writes
    ensures archive.Some? <==> Texts(p) && Packable(p, 0, Payload(p.files, None))
    ensures archive.Some? ==> archive.value == Archive(p)
    ensures ok <==>
              Buildable(p) && Unclaimed(old(fs.files), p) && false !in FileWrites(old(fs.writes), fs.writes, |p.files|)
    ensures ok ==> Delivered(old(fs.files), fs.files, p, listed, recorded)
    ensures Buildable(p) && Unclaimed(old(fs.files), p) && false !in fs.writes[|old(fs.writes)|..] ==>
            ok && listed && recorded
  {
    hide Container, CStr, Texts, NoNuls, Packable, NamesApart, Installed, Delivered, FileWrites, Conflict,
         Reads, Unclaimed, AllInside;
    ok, listed, recorded := false, false, false;
    archive := Build(p, None);
    if archive.None? || |archive.value| >= U32 {
      return;
    }
    ArchiveAcceptable(p);
    ArchiveChecks(p, fs.files);
    ReadsCount(archive.value, p);
    ok, listed, recorded := UnpackPackage(fs, archive.value);
    NoFailure(old(fs.writes), fs.writes, |p.files|);
    if ok {
      RoundTrip(p, old(fs.files), fs.files, listed, recorded);
    }
  }

  lemma ReadsCount(d: Bytes, p: Package)
    requires Reads(d, p)
    ensures Tabled(d) && FileCount(d) == |p.files|
  {
  }

  lemma NoFailure(before: seq<bool>, after: seq<bool>, n: nat)
    requires before <= after
    ensures false !in after[|before|..] ==> false !in FileWrites(before, after, n)
  {
  }

  // ---------------------------------------------------------------- what the manifest protects

  lemma {:induction false} ManifestLine(files: seq<File>, i: nat) returns (a: int)
    requires i < |files| && NoNul(files[i].name) && NL !in files[i].name
    ensures IsLine(Manifest(files), a, a + |files[i].name|)
    ensures Manifest(files)[a..a + |files[i].name|] == files[i].name
    ensures a + |files[i].name| < |Manifest(files)|
  {
    var n := |files| - 1;
    var m, name := Manifest(files[..n]), files[i].name;
    if i < n {
      a := ManifestLine(files[..n], i);
      assert Manifest(files)[a..a + |name|] == m[a..a + |name|];
    } else {
      a := |m|;
      assert Manifest(files)[a..a + |name|] == name;
      assert n > 0 ==> m[|m| - 1] == NL;
    }
  }

  /** The complete manifest of p is stored, and file i has a line of its own in it. */
  ghost predicate Listed(files: map<Bytes, Bytes>, p: Package, i: nat)
    requires i < |p.files|
  {
    && NoNul(p.files[i].name) && NL !in p.files[i].name && |Manifest(p.files)| < MANIFEST_MAX
    && Stored(ListName(p.name)) in files && Contents(files, ListName(p.name)) == Manifest(p.files)
  }

  /** A complete manifest claims its files if it is recognised as one and not as that of `self`. */
  lemma ListedClaims(files: map<Bytes, Bytes>, p: Package, i: nat, self: Bytes)
    requires i < |p.files| && Listed(files, p, i)
    ensures var en := Stored(ListName(p.name));
            Claims(files, en, self, p.files[i].name) <==> IsManifest(en) && en != ListName(self)
  {
    hide Manifest, ListName, IsManifest;
    var a := ManifestLine(p.files, i);
    assert HasLine(Manifest(p.files), p.files[i].name);
  }

  lemma ListNamesDiffer(x: Bytes, y: Bytes)
    requires ListName(x) == ListName(y)
    ensures x == y
  {
    assert ListName(x)[4..|ListName(x)| - 4] == x;
    assert ListName(y)[4..|ListName(y)| - 4] == y;
  }

  /** Once a package with a complete manifest is installed, its files are claimed against every other
      package, provided the directory entry of the manifest has room for its suffix. */
  lemma FilesProtected(files: map<Bytes, Bytes>, p: Package, i: nat, other: Bytes)
    requires i < |p.files| && Listed(files, p, i) && |p.name| <= 7 && other != p.name
    ensures Claimed(files, other, p.files[i].name)
  {
    hide Listed, ListName;
    ProtectsIff(files, p, i);
    assert Claims(files, Stored(ListName(p.name)), other, p.files[i].name);
  }

  /** Exactly the names of at most seven characters are protected by their manifest against every
      other package; and exactly the longer ones that spell the suffix at the cut make a package
      conflict with itself when it is installed again. */
  lemma ProtectsIff(files: map<Bytes, Bytes>, p: Package, i: nat)
    requires i < |p.files| && Listed(files, p, i)
    ensures var en, f := Stored(ListName(p.name)), p.files[i].name;
            && ((forall other | other != p.name :: Claims(files, en, other, f)) <==> |p.name| <= 7)
            && (Claims(files, en, p.name, f) <==> |p.name| >= 11 && p.name[7..11] == DOT_LST)
  {
    hide Listed, ListName, IsManifest, Claims;
    var name, en := p.name, Stored(ListName(p.name));
    ListedClaims(files, p, i, name);
    ManifestVisible(name);
    ShortListName(name);
    if |name| <= 7 {
      forall other | other != name ensures Claims(files, en, other, p.files[i].name) {
        ListedClaims(files, p, i, other);
        if ListName(other) == ListName(name) {
          ListNamesDiffer(other, name);
        }
      }
    } else {
      var other := if IsManifest(en) then name[..7] else [];
      ListedClaims(files, p, i, other);
      assert other != name && !Claims(files, en, other, p.files[i].name);
    }
  }

  /** What the directory keeps of the name of a manifest. */
  lemma ShortListName(name: Bytes)
    ensures |name| <= 7 <==> Stored(ListName(name)) == ListName(name)
    ensures |name| >= 11 && name[7..11] == DOT_LST ==> Stored(ListName(name)) == ListName(name[..7])
  {
    if |name| >= 11 && name[7..11] == DOT_LST {
      assert name[..11] == name[..7] + name[7..11];
      assert ListName(name)[..NAME_MAX] == PKG_DASH + name[..11];
    }
  }

  /** Names longer than seven characters lose the suffix. */
  lemma ManifestVisible(name: Bytes)
    ensures IsManifest(Stored(ListName(name))) <==> |name| <= 7 || (|name| >= 11 && name[7..11] == DOT_LST)
  {
    var en := Stored(ListName(name));
    assert en[..4] == PKG_DASH;
    if |name| <= 7 {
      assert en[|en| - 4..] == DOT_LST;
    } else {
      assert en[|en| - 4..] == (name + DOT_LST)[7..11];
      if |name| < 11 {
        assert (name + DOT_LST)[7..11][|name| - 7] == DOT_LST[0];
      } else {
        assert (name + DOT_LST)[7..11] == name[7..11];
      }
    }
  }
}
