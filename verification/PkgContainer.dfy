/** The .stinkpkg container: the builder tools/make-stinkpkg.py and the reader in apps/stinkpkg.c. */
module PkgContainerModel {
  import opened Common
  import opened StinkFsModel

  const MAGIC := 0x474B5053
  const FORMAT_VERSION := 1
  const FLAG_COMPRESSED := 1
  const NAME_LEN := 32
  const VER_LEN := 16
  const DESC_LEN := 128
  const HEADER_SIZE := 200
  const DEP_SIZE := 32
  const FILE_SIZE := 40
  const U32 := 0x1_0000_0000
  const U16 := 0x1_0000

  const NL: Byte := 10
  const SPACE: Byte := 32
  const PKG_DASH: Bytes := [112, 107, 103, 45]             // "pkg-"
  const DOT_LST: Bytes := [46, 108, 115, 116]              // ".lst"
  const STINKDB: Bytes := [83, 84, 73, 78, 75, 68, 66]     // "STINKDB"

  // ---------------------------------------------------------------- fields

  /** The C string at the start of a field. */
  function CStr(s: Bytes): (r: Bytes)
    ensures |r| <= |s| && r == s[..|r|] && 0 !in r
    ensures |r| < |s| ==> s[|r|] == 0
  {
    if s == [] || s[0] == 0 then []
    else
      var r := CStr(s[1..]);
      assert [s[0]] + r == s[..|r| + 1];
      [s[0]] + r
  }

  function Zeros(n: nat): Bytes {
    seq(n, i => 0)
  }

  function Pad(s: Bytes, n: nat): (r: Bytes)
    requires |s| <= n
    ensures |r| == n
  {
    s + Zeros(n - |s|)
  }

  /** Padding is undone by reading the field as a C string. */
  lemma {:induction false} PadReads(s: Bytes, n: nat)
    requires |s| < n && 0 !in s
    ensures CStr(Pad(s, n)) == s
  {
    if s != [] {
      PadReads(s[1..], n - 1);
      assert Pad(s, n)[1..] == Pad(s[1..], n - 1);
    }
  }

  function U16Bytes(v: nat): (r: Bytes)
    ensures |r| == 2
  {
    [(v % 0x100) as Byte, (v / 0x100 % 0x100) as Byte]
  }

  function U32Bytes(v: nat): (r: Bytes)
    ensures |r| == 4
  {
    U16Bytes(v % U16) + U16Bytes(v / U16)
  }

  function U16At(d: Bytes, i: nat): (v: nat)
    requires i + 2 <= |d|
    ensures v < U16
  {
    d[i] as int + 0x100 * (d[i + 1] as int)
  }

  function U32At(d: Bytes, i: nat): (v: nat)
    requires i + 4 <= |d|
    ensures v < U32
  {
    U16At(d, i) + U16 * U16At(d, i + 2)
  }

  lemma U16Back(v: nat)
    requires v < U16
    ensures U16At(U16Bytes(v), 0) == v
  {
  }

  lemma U32Back(v: nat)
    requires v < U32
    ensures U32At(U32Bytes(v), 0) == v
  {
    U16Back(v % U16);
    U16Back(v / U16);
    assert U16At(U32Bytes(v), 0) == U16At(U16Bytes(v % U16), 0);
    assert U16At(U32Bytes(v), 2) == U16At(U16Bytes(v / U16), 0);
  }

  // ---------------------------------------------------------------- layout

  function Concat(parts: seq<Bytes>): Bytes {
    if parts == [] then [] else Concat(parts[..|parts| - 1]) + parts[|parts| - 1]
  }

  /** Where part i starts. */
  function OffsetOf(parts: seq<Bytes>, i: nat): nat
    requires i <= |parts|
  {
    if i == 0 then 0 else OffsetOf(parts, i - 1) + |parts[i - 1]|
  }

  lemma ConcatStep(parts: seq<Bytes>, part: Bytes)
    ensures Concat(parts + [part]) == Concat(parts) + part
  {
    assert (parts + [part])[..|parts|] == parts;
  }

  lemma {:induction false} OffsetPrefix(parts: seq<Bytes>, n: nat, i: nat)
    requires i <= n <= |parts|
    ensures OffsetOf(parts[..n], i) == OffsetOf(parts, i)
  {
    if i > 0 {
      OffsetPrefix(parts, n, i - 1);
    }
  }

  lemma {:induction false} ConcatLength(parts: seq<Bytes>)
    ensures |Concat(parts)| == OffsetOf(parts, |parts|)
  {
    if parts != [] {
      var n := |parts| - 1;
      ConcatLength(parts[..n]);
      OffsetPrefix(parts, n, n);
    }
  }

  /** Every part can be cut out again. */
  lemma {:induction false} ConcatAt(parts: seq<Bytes>, i: nat)
    requires i < |parts|
    ensures OffsetOf(parts, i) + |parts[i]| <= |Concat(parts)|
    ensures Concat(parts)[OffsetOf(parts, i)..OffsetOf(parts, i) + |parts[i]|] == parts[i]
  {
    var n := |parts| - 1;
    ConcatLength(parts[..n]);
    OffsetPrefix(parts, n, n);
    if i < n {
      ConcatAt(parts[..n], i);
      OffsetPrefix(parts, n, i);
      assert parts[..n][i] == parts[i];
    }
  }

  lemma {:induction false} EqualParts(parts: seq<Bytes>, size: nat, i: nat)
    requires i <= |parts| && forall k | 0 <= k < |parts| :: |parts[k]| == size
    ensures OffsetOf(parts, i) == i * size
  {
    if i > 0 {
      EqualParts(parts, size, i - 1);
      assert i * size == (i - 1) * size + size;
    }
  }

  datatype File = File(name: Bytes, data: Bytes)
  datatype Package = Package(name: Bytes, version: Bytes, desc: Bytes, deps: seq<Bytes>, files: seq<File>)

  function DepBytes(deps: seq<Bytes>): (r: seq<Bytes>)
    requires forall dep | dep in deps :: |dep| <= NAME_LEN
    ensures |r| == |deps|
  {
    seq(|deps|, i requires 0 <= i < |deps| => Pad(deps[i], NAME_LEN))
  }

  function Bodies(files: seq<File>): (r: seq<Bytes>)
    ensures |r| == |files|
  {
    seq(|files|, i requires 0 <= i < |files| => files[i].data)
  }

  function EntryBytes(name: Bytes, size: nat, offset: nat): (r: Bytes)
    requires |name| <= NAME_LEN
    ensures |r| == FILE_SIZE
  {
    Pad(name, NAME_LEN) + U32Bytes(size) + U32Bytes(offset)
  }

  function FileTable(files: seq<File>): (r: seq<Bytes>)
    requires forall f | f in files :: |f.name| <= NAME_LEN
    ensures |r| == |files|
  {
    seq(|files|, i requires 0 <= i < |files| =>
      EntryBytes(files[i].name, |files[i].data|, OffsetOf(Bodies(files), i)))
  }

  /** Every text fits its field and is ASCII without NUL, as command-line arguments are. */
  ghost predicate Texts(p: Package) {
    && Text(p.name, NAME_LEN) && Text(p.version, VER_LEN) && Text(p.desc, DESC_LEN)
    && (forall dep | dep in p.deps :: Text(dep, NAME_LEN))
    && (forall f | f in p.files :: Text(f.name, NAME_LEN))
  }

  predicate Text(s: Bytes, len: nat) {
    |s| < len && forall c | c in s :: c < 128
  }

  predicate NoNul(s: Bytes) {
    0 !in s
  }

  ghost predicate NoNuls(p: Package) {
    && NoNul(p.name) && NoNul(p.version) && NoNul(p.desc)
    && (forall dep | dep in p.deps :: NoNul(dep)) && (forall f | f in p.files :: NoNul(f.name))
  }

  function PayloadStart(deps: nat, files: nat): nat {
    HEADER_SIZE + deps * DEP_SIZE + files * FILE_SIZE
  }

  function Header(p: Package, flags: nat, payloadSize: nat): (r: Bytes)
    requires |p.name| <= NAME_LEN && |p.version| <= VER_LEN && |p.desc| <= DESC_LEN
    ensures |r| == HEADER_SIZE
  {
    U32Bytes(MAGIC) + U16Bytes(FORMAT_VERSION) + U16Bytes(flags) +
    Pad(p.name, NAME_LEN) + Pad(p.version, VER_LEN) + Pad(p.desc, DESC_LEN) +
    (U32Bytes(|p.deps|) + U32Bytes(|p.files|) + U32Bytes(PayloadStart(|p.deps|, |p.files|)) + U32Bytes(payloadSize))
  }

  ghost function Container(p: Package, flags: nat, payload: Bytes): Bytes
    requires Texts(p)
  {
    Header(p, flags, |payload|) + Concat(DepBytes(p.deps)) + Concat(FileTable(p.files)) + payload
  }

  // ---------------------------------------------------------------- reading

  function PkgName(d: Bytes): Bytes
    requires |d| >= HEADER_SIZE
  {
    CStr(d[8..40])
  }

  function PkgVersion(d: Bytes): Bytes
    requires |d| >= HEADER_SIZE
  {
    CStr(d[40..56])
  }

  function DepCount(d: Bytes): nat
    requires |d| >= HEADER_SIZE
  {
    U32At(d, 184)
  }

  function FileCount(d: Bytes): nat
    requires |d| >= HEADER_SIZE
  {
    U32At(d, 188)
  }

  function PayloadOff(d: Bytes): nat
    requires |d| >= HEADER_SIZE
  {
    U32At(d, 192)
  }

  function PayloadSize(d: Bytes): nat
    requires |d| >= HEADER_SIZE
  {
    U32At(d, 196)
  }

  /** Header and tables lie inside the data. */
  predicate Tabled(d: Bytes) {
    |d| >= HEADER_SIZE && PayloadStart(DepCount(d), FileCount(d)) <= |d|
  }

  function DepName(d: Bytes, i: nat): Bytes
    requires Tabled(d) && i < DepCount(d)
  {
    CStr(d[HEADER_SIZE + i * DEP_SIZE..HEADER_SIZE + i * DEP_SIZE + DEP_SIZE])
  }

  function EntryAt(d: Bytes, i: nat): (at: nat)
    requires Tabled(d) && i < FileCount(d)
    ensures at + FILE_SIZE <= |d|
  {
    HEADER_SIZE + DepCount(d) * DEP_SIZE + i * FILE_SIZE
  }

  function FileName(d: Bytes, i: nat): Bytes
    requires Tabled(d) && i < FileCount(d)
  {
    CStr(d[EntryAt(d, i)..EntryAt(d, i) + NAME_LEN])
  }

  function BodyStart(d: Bytes, i: nat): nat
    requires Tabled(d) && i < FileCount(d)
  {
    PayloadOff(d) + U32At(d, EntryAt(d, i) + 36)
  }

  function BodySize(d: Bytes, i: nat): nat
    requires Tabled(d) && i < FileCount(d)
  {
    U32At(d, EntryAt(d, i) + 32)
  }

  predicate BodyInside(d: Bytes, i: nat)
    requires Tabled(d) && i < FileCount(d)
  {
    BodyStart(d, i) + BodySize(d, i) <= |d|
  }

  function Body(d: Bytes, i: nat): Bytes
    requires Tabled(d) && i < FileCount(d) && BodyInside(d, i)
  {
    d[BodyStart(d, i)..BodyStart(d, i) + BodySize(d, i)]
  }

  /** unpack_package's tests on the header. */
  predicate Acceptable(d: Bytes) {
    && |d| >= HEADER_SIZE
    && U32At(d, 0) == MAGIC && U16At(d, 4) == FORMAT_VERSION
    && (PayloadOff(d) + PayloadSize(d)) % U32 <= |d|
    && U16At(d, 6) % 2 == 0
  }

  // ---------------------------------------------------------------- what the builder wrote is read back

  /** Reading a field does not see what follows it. */
  lemma ReadThrough(d: Bytes, part: Bytes, at: nat, i: nat)
    requires at + |part| <= |d| && d[at..at + |part|] == part
    ensures i + 2 <= |part| ==> U16At(d, at + i) == U16At(part, i)
    ensures i + 4 <= |part| ==> U32At(d, at + i) == U32At(part, i)
  {
    if i + 2 <= |part| {
      assert d[at + i] == part[i] && d[at + i + 1] == part[i + 1];
    }
    if i + 4 <= |part| {
      assert d[at + i + 2] == part[i + 2] && d[at + i + 3] == part[i + 3];
    }
  }

  /** A field of the header, cut out of any data that starts with it. */
  ghost predicate Holds(d: Bytes, at: nat, part: Bytes) {
    at + |part| <= |d| && d[at..at + |part|] == part
  }

  lemma HeaderFields(p: Package, flags: nat, payloadSize: nat, rest: Bytes)
    requires |p.name| <= NAME_LEN && |p.version| <= VER_LEN && |p.desc| <= DESC_LEN
    ensures var d := Header(p, flags, payloadSize) + rest;
            && Holds(d, 0, U32Bytes(MAGIC)) && Holds(d, 4, U16Bytes(FORMAT_VERSION)) && Holds(d, 6, U16Bytes(flags))
            && Holds(d, 8, Pad(p.name, NAME_LEN)) && Holds(d, 40, Pad(p.version, VER_LEN))
            && Holds(d, 184, U32Bytes(|p.deps|)) && Holds(d, 188, U32Bytes(|p.files|))
            && Holds(d, 192, U32Bytes(PayloadStart(|p.deps|, |p.files|))) && Holds(d, 196, U32Bytes(payloadSize))
  {
    hide U32Bytes, U16Bytes, Pad, PayloadStart;
  }

  /** The header of a container says what went into it. */
  lemma HeaderReads(p: Package, flags: nat, payloadSize: nat, rest: Bytes)
    requires Text(p.name, NAME_LEN) && Text(p.version, VER_LEN) && |p.desc| <= DESC_LEN
    requires NoNul(p.name) && NoNul(p.version)
    requires flags < U16 && |p.deps| < U32 && |p.files| < U32 && PayloadStart(|p.deps|, |p.files|) < U32
             && payloadSize < U32
    ensures var d := Header(p, flags, payloadSize) + rest;
            && U32At(d, 0) == MAGIC && U16At(d, 4) == FORMAT_VERSION && U16At(d, 6) == flags
            && PkgName(d) == p.name && PkgVersion(d) == p.version
            && DepCount(d) == |p.deps| && FileCount(d) == |p.files|
            && PayloadOff(d) == PayloadStart(|p.deps|, |p.files|) && PayloadSize(d) == payloadSize
  {
    hide U32Bytes, U16Bytes, Pad, PayloadStart, Header, U32At, U16At, CStr;
    HeaderFields(p, flags, payloadSize, rest);
    var d := Header(p, flags, payloadSize) + rest;
    ReadU32(d, 0, MAGIC);
    ReadU16(d, 4, FORMAT_VERSION);
    ReadU16(d, 6, flags);
    ReadU32(d, 184, |p.deps|);
    ReadU32(d, 188, |p.files|);
    ReadU32(d, 192, PayloadStart(|p.deps|, |p.files|));
    ReadU32(d, 196, payloadSize);
    PadReads(p.name, NAME_LEN);
    PadReads(p.version, VER_LEN);
  }

  lemma ReadU32(d: Bytes, at: nat, v: nat)
    requires v < U32 && Holds(d, at, U32Bytes(v))
    ensures at + 4 <= |d| && U32At(d, at) == v
  {
    ReadThrough(d, U32Bytes(v), at, 0);
    U32Back(v);
  }

  lemma ReadU16(d: Bytes, at: nat, v: nat)
    requires v < U16 && Holds(d, at, U16Bytes(v))
    ensures at + 2 <= |d| && U16At(d, at) == v
  {
    ReadThrough(d, U16Bytes(v), at, 0);
    U16Back(v);
  }

  lemma HoldsWithin(d: Bytes, at: nat, part: Bytes, off: nat, sub: Bytes)
    requires Holds(d, at, part) && Holds(part, off, sub)
    ensures Holds(d, at + off, sub)
  {
    forall k | 0 <= k < |sub| ensures d[at + off + k] == sub[k] {
      assert d[at + off + k] == d[at..at + |part|][off + k];
      assert part[off + k] == part[off..off + |sub|][k];
    }
    assert d[at + off..at + off + |sub|] == sub;
  }

  lemma FourParts(a: Bytes, b: Bytes, c: Bytes, d: Bytes)
    ensures var x := a + b + c + d;
            && |x| == |a| + |b| + |c| + |d| && x == a + (b + c + d)
            && Holds(x, |a|, b) && Holds(x, |a| + |b|, c) && Holds(x, |a| + |b| + |c|, d)
  {
  }

  lemma DepsLayout(deps: seq<Bytes>, i: nat)
    requires i <= |deps| && forall dep | dep in deps :: |dep| <= NAME_LEN
    ensures OffsetOf(DepBytes(deps), i) == i * DEP_SIZE && |Concat(DepBytes(deps))| == |deps| * DEP_SIZE
    ensures i < |deps| ==> Holds(Concat(DepBytes(deps)), i * DEP_SIZE, Pad(deps[i], NAME_LEN))
  {
    hide Pad, Concat, OffsetOf;
    var parts := DepBytes(deps);
    ConcatLength(parts);
    EqualParts(parts, DEP_SIZE, |deps|);
    EqualParts(parts, DEP_SIZE, i);
    if i < |deps| {
      ConcatAt(parts, i);
    }
  }

  lemma TableLayout(files: seq<File>, i: nat)
    requires i <= |files| && forall f | f in files :: |f.name| <= NAME_LEN
    ensures |Concat(FileTable(files))| == |files| * FILE_SIZE
    ensures i < |files| ==>
      Holds(Concat(FileTable(files)), i * FILE_SIZE,
          EntryBytes(files[i].name, |files[i].data|, OffsetOf(Bodies(files), i)))
  {
    hide EntryBytes, Concat, OffsetOf;
    var parts := FileTable(files);
    ConcatLength(parts);
    EqualParts(parts, FILE_SIZE, |files|);
    EqualParts(parts, FILE_SIZE, i);
    if i < |files| {
      ConcatAt(parts, i);
    }
  }

  lemma EntryFields(name: Bytes, size: nat, offset: nat)
    requires |name| <= NAME_LEN
    ensures var e := EntryBytes(name, size, offset);
            Holds(e, 0, Pad(name, NAME_LEN)) && Holds(e, 32, U32Bytes(size)) && Holds(e, 36, U32Bytes(offset))
  {
    hide U32Bytes, Pad;
  }

  /** The sizes that must fit 32 bits; struct.pack raises an error otherwise. */
  ghost predicate Packable(p: Package, flags: nat, payload: Bytes) {
    && flags < U16 && |p.deps| < U32 && |p.files| < U32
    && PayloadStart(|p.deps|, |p.files|) < U32 && |payload| < U32
    && (forall i | 0 <= i < |p.files| :: |p.files[i].data| < U32 && OffsetOf(Bodies(p.files), i) < U32)
  }

  /** The layout of a container: where its parts are. */
  lemma ContainerLayout(p: Package, flags: nat, payload: Bytes)
    requires Texts(p) && NoNuls(p) && Packable(p, flags, payload)
    ensures var c := Container(p, flags, payload);
            && Tabled(c) && U32At(c, 0) == MAGIC && U16At(c, 4) == FORMAT_VERSION && U16At(c, 6) == flags
            && PkgName(c) == p.name && PkgVersion(c) == p.version
            && DepCount(c) == |p.deps| && FileCount(c) == |p.files|
            && PayloadOff(c) == PayloadStart(|p.deps|, |p.files|) && PayloadSize(c) == |payload|
            && |c| == PayloadOff(c) + |payload| && Holds(c, PayloadOff(c), payload)
            && Holds(c, HEADER_SIZE, Concat(DepBytes(p.deps)))
            && Holds(c, HEADER_SIZE + |p.deps| * DEP_SIZE, Concat(FileTable(p.files)))
  {
    hide U32At, U16At, CStr, Header, Concat, DepBytes, FileTable, Holds, OffsetOf, PkgName, PkgVersion;
    var h, deps, table := Header(p, flags, |payload|), Concat(DepBytes(p.deps)), Concat(FileTable(p.files));
    FourParts(h, deps, table, payload);
    HeaderReads(p, flags, |payload|, deps + table + payload);
    DepsLayout(p.deps, 0);
    TableLayout(p.files, 0);
  }

  /** Dependency i of a container is the dependency that went in. */
  lemma DepReads(p: Package, flags: nat, payload: Bytes, i: nat)
    requires Texts(p) && NoNuls(p) && Packable(p, flags, payload) && i < |p.deps|
    ensures var c := Container(p, flags, payload);
            Tabled(c) && DepCount(c) == |p.deps| && DepName(c, i) == p.deps[i]
  {
    hide U32At, U16At, CStr, Header, Concat, DepBytes, FileTable, OffsetOf, Container, Pad;
    var c := Container(p, flags, payload);
    ContainerLayout(p, flags, payload);
    DepsLayout(p.deps, i);
    HoldsWithin(c, HEADER_SIZE, Concat(DepBytes(p.deps)), i * DEP_SIZE, Pad(p.deps[i], NAME_LEN));
    PadReads(p.deps[i], NAME_LEN);
  }

  /** File i of a container is the file that went in. */
  lemma FileReads(p: Package, flags: nat, i: nat)
    requires Texts(p) && NoNuls(p) && Packable(p, flags, Concat(Bodies(p.files))) && i < |p.files|
    ensures var c := Container(p, flags, Concat(Bodies(p.files)));
            && Tabled(c) && FileCount(c) == |p.files| && FileName(c, i) == p.files[i].name
            && BodyInside(c, i) && Body(c, i) == p.files[i].data
  {
    hide U32At, U16At, CStr, Header, Container, Concat, OffsetOf;
    var payload, f := Concat(Bodies(p.files)), p.files[i];
    var c := Container(p, flags, payload);
    ContainerLayout(p, flags, payload);
    EntryReads(p, flags, payload, i);
    ConcatAt(Bodies(p.files), i);
    HoldsWithin(c, PayloadOff(c), payload, OffsetOf(Bodies(p.files), i), f.data);
  }

  lemma EntryReads(p: Package, flags: nat, payload: Bytes, i: nat)
    requires Texts(p) && NoNuls(p) && Packable(p, flags, payload) && i < |p.files|
    ensures var c := Container(p, flags, payload);
            && Tabled(c) && FileCount(c) == |p.files| && FileName(c, i) == p.files[i].name
            && BodySize(c, i) == |p.files[i].data| && BodyStart(c, i) == PayloadOff(c) + OffsetOf(Bodies(p.files), i)
  {
    hide U32At, U16At, CStr, Header, Concat, DepBytes, FileTable, OffsetOf, Container, Pad, EntryBytes, Bodies,
         U32Bytes, U16Bytes;
    var c, f, off := Container(p, flags, payload), p.files[i], OffsetOf(Bodies(p.files), i);
    ContainerLayout(p, flags, payload);
    TableLayout(p.files, i);
    var e, at := EntryBytes(f.name, |f.data|, off), EntryAt(c, i);
    HoldsWithin(c, HEADER_SIZE + |p.deps| * DEP_SIZE, Concat(FileTable(p.files)), i * FILE_SIZE, e);
    EntryFields(f.name, |f.data|, off);
    HoldsWithin(c, at, e, 0, Pad(f.name, NAME_LEN));
    HoldsWithin(c, at, e, 32, U32Bytes(|f.data|));
    HoldsWithin(c, at, e, 36, U32Bytes(off));
    ReadU32(c, at + 32, |f.data|);
    ReadU32(c, at + 36, off);
    PadReads(f.name, NAME_LEN);
  }

  // ---------------------------------------------------------------- the builder

  /** `fixed`: a field of exactly n bytes that reads back as the text, or nothing if the text is not
      ASCII or leaves no room for a NUL. */
  function Fixed(s: Bytes, n: nat): (r: Option<Bytes>)
    ensures r.Some? <==> Text(s, n)
    ensures r.Some? ==> |r.value| == n && s <= r.value && forall i | |s| <= i < n :: r.value[i] == 0
    ensures r.Some? && NoNul(s) ==> CStr(r.value) == s
  {
    if exists c :: c in s && c >= 128 then None
    else if |s| >= n then None
    else
      assert NoNul(s) ==> CStr(s + Zeros(n - |s|)) == s by {
        if NoNul(s) {
          PadReads(s, n);
        }
      }
      Some(s + Zeros(n - |s|))
  }

  /** The properties of a field leave no choice. */
  lemma FixedIsPad(s: Bytes, n: nat)
    requires Text(s, n)
    ensures Fixed(s, n) == Some(Pad(s, n))
  {
  }

  datatype Row = Row(name: Bytes, size: nat, offset: nat)

  /** The dependency fields, or nothing if one of them does not fit. */
  method FixedAll(deps: seq<Bytes>) returns (fields: Option<seq<Bytes>>)
    ensures fields.Some? <==> forall dep | dep in deps :: Text(dep, NAME_LEN)
    ensures fields.Some? ==> fields.value == DepBytes(deps)
  {
    hide Pad;
    var done: seq<Bytes> := [];
    for i := 0 to |deps|
      invariant |done| == i && forall k | 0 <= k < i :: Text(deps[k], NAME_LEN) && done[k] == Pad(deps[k], NAME_LEN)
    {
      var field := Fixed(deps[i], NAME_LEN);
      if field.None? {
        assert deps[i] in deps;
        return None;
      }
      FixedIsPad(deps[i], NAME_LEN);
      done := done + [field.value];
    }
    assert forall dep | dep in deps :: Text(dep, NAME_LEN);
    assert done == DepBytes(deps);
    return Some(done);
  }

  /** The rows of the file table and the payload they describe. */
  method Collect(inputs: seq<File>) returns (rows: Option<seq<Row>>, payload: Bytes)
    ensures rows.Some? <==> forall f | f in inputs :: Text(f.name, NAME_LEN)
    ensures rows.Some? ==>
      && payload == Concat(Bodies(inputs)) && |rows.value| == |inputs|
      && forall i | 0 <= i < |inputs| ::
           |inputs[i].name| <= NAME_LEN && rows.value[i]
               == Row(Pad(inputs[i].name, NAME_LEN), |inputs[i].data|, OffsetOf(Bodies(inputs), i))
  {
    hide Pad, Concat, OffsetOf, Text;
    var files: seq<Row> := [];
    var cursor := 0;
    payload := [];
    ghost var bodies := Bodies(inputs);
    assert bodies[..0] == [];
    NoParts();
    OffsetStep(bodies, 0);
    for i := 0 to |inputs|
      invariant |files| == i && cursor == OffsetOf(bodies, i) && payload == Concat(bodies[..i])
      invariant forall k | 0 <= k < i :: Text(inputs[k].name, NAME_LEN) && |inputs[k].name| <= NAME_LEN
      invariant forall k | 0 <= k < i ::
                  files[k] == Row(Pad(inputs[k].name, NAME_LEN), |inputs[k].data|, OffsetOf(bodies, k))
    {
      var data := inputs[i].data;
      var name := Fixed(inputs[i].name, NAME_LEN);
      if name.None? {
        assert inputs[i] in inputs;
        return None, payload;
      }
      FixedIsPad(inputs[i].name, NAME_LEN);
      files := files + [Row(name.value, |data|, cursor)];
      payload := payload + data;
      cursor := cursor + |data|;
      TextLength(inputs[i].name, NAME_LEN);
      OffsetStep(bodies, i);
      ConcatStep(bodies[..i], data);
      assert bodies[..i + 1] == bodies[..i] + [data];
    }
    assert bodies[..|inputs|] == bodies;
    assert forall f | f in inputs :: Text(f.name, NAME_LEN);
    return Some(files), payload;
  }

  lemma TextLength(s: Bytes, n: nat)
    requires Text(s, n)
    ensures |s| < n
  {
  }

  lemma OffsetStep(parts: seq<Bytes>, i: nat)
    requires i <= |parts|
    ensures OffsetOf(parts, 0) == 0
    ensures i < |parts| ==> OffsetOf(parts, i + 1) == OffsetOf(parts, i) + |parts[i]|
  {
  }

  lemma NoParts()
    ensures Concat([]) == []
  {
  }

  /** struct.pack's unsigned fields. */
  function PackU32(v: nat): (r: Option<Bytes>)
    ensures r == if v < U32 then Some(U32Bytes(v)) else None
  {
    if v < U32 then Some(U32Bytes(v)) else None
  }

  method WriteTable(rows: seq<Row>, inputs: seq<File>) returns (table: Option<Bytes>)
    requires |rows| == |inputs| && forall f | f in inputs :: |f.name| <= NAME_LEN
    requires forall i | 0 <= i < |inputs| ::
               rows[i] == Row(Pad(inputs[i].name, NAME_LEN), |inputs[i].data|, OffsetOf(Bodies(inputs), i))
    ensures table.Some? <==> forall i | 0 <= i < |inputs| :: |inputs[i].data| < U32 && OffsetOf(Bodies(inputs), i) < U32
    ensures table.Some? ==> table.value == Concat(FileTable(inputs))
  {
    hide Pad, Concat, U32Bytes, OffsetOf;
    var out: Bytes := [];
    ghost var parts := FileTable(inputs);
    assert parts[..0] == [];
    NoParts();
    for i := 0 to |rows|
      invariant out == Concat(parts[..i])
      invariant forall k | 0 <= k < i :: |inputs[k].data| < U32 && OffsetOf(Bodies(inputs), k) < U32
    {
      var size, offset := PackU32(rows[i].size), PackU32(rows[i].offset);
      if size.None? || offset.None? {
        return None;
      }
      ghost var entry := rows[i].name + size.value + offset.value;
      out := out + rows[i].name;
      out := out + (size.value + offset.value);
      assert entry == parts[i];
      assert parts[..i + 1] == parts[..i] + [parts[i]];
      ConcatStep(parts[..i], parts[i]);
    }
    assert parts[..|rows|] == parts;
    return Some(out);
  }

  method WriteAll(parts: seq<Bytes>) returns (out: Bytes)
    ensures out == Concat(parts)
  {
    out := [];
    for i := 0 to |parts|
      invariant out == Concat(parts[..i])
    {
      out := out + parts[i];
      assert parts[..i + 1] == parts[..i] + [parts[i]];
      ConcatStep(parts[..i], parts[i]);
    }
    assert parts[..|parts|] == parts;
  }

  function Payload(files: seq<File>, compressed: Option<Bytes>): Bytes {
    if compressed.Some? then compressed.value else Concat(Bodies(files))
  }

  function Flags(compressed: Option<Bytes>): nat {
    if compressed.Some? then FLAG_COMPRESSED else 0
  }

  /** `main`; `compressed` is zlib's output when --compress is given. The archive is written exactly
      if every text fits its field and every number 32 bits. */
  method Build(p: Package, compressed: Option<Bytes>) returns (out: Option<Bytes>)
    ensures out.Some? <==> Texts(p) && Packable(p, Flags(compressed), Payload(p.files, compressed))
    ensures out.Some? ==> out.value == Container(p, Flags(compressed), Payload(p.files, compressed))
  {
    hide Pad, Concat, U32Bytes, U16Bytes, OffsetOf, DepBytes, FileTable, Text;
    var nameField, verField, descField := Fixed(p.name, NAME_LEN), Fixed(p.version, VER_LEN), Fixed(p.desc, DESC_LEN);
    if nameField.None? || verField.None? || descField.None? {
      return None;
    }
    var deps := FixedAll(p.deps);
    if deps.None? {
      return None;
    }
    var rows, payload := Collect(p.files);
    if rows.None? {
      return None;
    }
    var flags := 0;
    if compressed.Some? {
      payload := compressed.value;
      flags := flags + FLAG_COMPRESSED;
    }
    var payloadOff := HEADER_SIZE + |deps.value| * DEP_SIZE + |rows.value| * FILE_SIZE;
    var counts := [PackU32(|deps.value|), PackU32(|rows.value|), PackU32(payloadOff), PackU32(|payload|)];
    if counts[0].None? || counts[1].None? || counts[2].None? || counts[3].None? {
      return None;
    }
    var header := U32Bytes(MAGIC) + U16Bytes(FORMAT_VERSION) + U16Bytes(flags) + nameField.value
        + verField.value + descField.value
      + (counts[0].value + counts[1].value + counts[2].value + counts[3].value);
    TextFits(p);
    FixedIsPad(p.name, NAME_LEN);
    FixedIsPad(p.version, VER_LEN);
    FixedIsPad(p.desc, DESC_LEN);
    assert header == Header(p, flags, |payload|);
    var depPart := WriteAll(deps.value);
    var table := WriteTable(rows.value, p.files);
    if table.None? {
      return None;
    }
    return Some(header + depPart + table.value + payload);
  }

  lemma TextFits(p: Package)
    requires Texts(p)
    ensures |p.name| <= NAME_LEN && |p.version| <= VER_LEN && |p.desc| <= DESC_LEN
    ensures forall f | f in p.files :: |f.name| <= NAME_LEN
  {
  }
}
