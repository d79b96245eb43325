/** The .stinkpkg format and the names of the package manager's files, byte by byte. */
module PkgFormat {
  import opened Common
  import opened PkgContainerModel
  import opened PkgUnpackModel
  import opened StinkFsModel

  function Ascii(s: string): Bytes
    requires forall i | 0 <= i < |s| :: s[i] < 128 as char
  {
    seq(|s|, i requires 0 <= i < |s| => s[i] as int as Byte)
  }

  /** Bytes read as one number, the least significant first. */
  function Number(s: Bytes): nat {
    if s == [] then 0 else s[0] as nat + 256 * Number(s[1..])
  }

  lemma NumberStep(b: Byte, s: Bytes)
    ensures Number([b] + s) == b as nat + 256 * Number(s)
  {
    assert ([b] + s)[1..] == s;
  }

  lemma TwoBytes(d: Bytes, i: nat)
    requires i + 2 <= |d|
    ensures Number(d[i..i + 2]) == U16At(d, i)
  {
    NumberStep(d[i], [d[i + 1]]);
    NumberStep(d[i + 1], []);
    assert d[i..i + 2] == [d[i]] + [d[i + 1]] && [d[i + 1]] + [] == [d[i + 1]];
  }

  lemma NumberSplit(s: Bytes, t: Bytes)
    requires |s| == 2
    ensures Number(s + t) == Number(s) + 0x10000 * Number(t)
  {
    NumberStep(s[0], [s[1]] + t);
    NumberStep(s[1], t);
    NumberStep(s[0], [s[1]]);
    NumberStep(s[1], []);
    assert s + t == [s[0]] + ([s[1]] + t) && s == [s[0]] + [s[1]] && [s[1]] + [] == [s[1]];
  }

  lemma FourBytes(d: Bytes, i: nat)
    requires i + 4 <= |d|
    ensures Number(d[i..i + 4]) == U32At(d, i)
  {
    TwoBytes(d, i);
    TwoBytes(d, i + 2);
    hide Number;
    assert d[i..i + 4] == d[i..i + 2] + d[i + 2..i + 4];
    NumberSplit(d[i..i + 2], d[i + 2..i + 4]);
  }

  // ---------------------------------------------------------------- what the reader reads

  /** The header is accepted exactly if it starts with SPKG and version 1, the payload fits, and the
      compression flag is off. */
  lemma AcceptableIff(d: Bytes)
    ensures Acceptable(d) <==>
              |d| >= 200 && d[..4] == Ascii("SPKG") && Number(d[4..6]) == 1 && d[6] % 2 == 0
              && (Number(d[192..196]) + Number(d[196..200])) % 0x1_0000_0000 <= |d|
  {
    if |d| >= 200 {
      MagicIs(d);
      TwoBytes(d, 4);
      FourBytes(d, 192);
      FourBytes(d, 196);
      assert U16At(d, 6) % 2 == d[6] as int % 2;
    }
  }

  lemma MagicIs(d: Bytes)
    requires |d| >= 4
    ensures U32At(d, 0) == MAGIC <==> d[..4] == Ascii("SPKG")
  {
    assert Ascii("SPKG") == [0x53, 0x50, 0x4B, 0x47];
  }

  lemma ReaderFields(d: Bytes)
    requires |d| >= 200
    ensures PkgName(d) == CStr(d[8..40]) && SelfName(d) == CStr(d[8..39]) && PkgVersion(d) == CStr(d[40..56])
    ensures DepCount(d) == Number(d[184..188]) && FileCount(d) == Number(d[188..192])
    ensures Tabled(d) <==> 200 + 32 * Number(d[184..188]) + 40 * Number(d[188..192]) <= |d|
  {
    FourBytes(d, 184);
    FourBytes(d, 188);
  }

  /** Entry i of the file table: a name, a size, and where the bytes are behind the payload offset. */
  lemma ReaderFile(d: Bytes, i: nat)
    requires Tabled(d) && i < FileCount(d)
    ensures var at := 200 + 32 * Number(d[184..188]) + 40 * i;
            && at + 40 <= |d| && FileName(d, i) == CStr(d[at..at + 32])
            && var from, size := Number(d[192..196]) + Number(d[at + 36..at + 40]), Number(d[at + 32..at + 36]);
               (BodyInside(d, i) <==> from + size <= |d|) && (BodyInside(d, i) ==> Body(d, i) == d[from..from + size])
  {
    hide Number, CStr, U32At;
    FourBytes(d, 184);
    FourBytes(d, 192);
    var at := EntryAt(d, i);
    FourBytes(d, at + 32);
    FourBytes(d, at + 36);
  }

  // ---------------------------------------------------------------- what the builder writes

  /** The text stands at i, and zeros behind it up to j. */
  ghost predicate Field(d: Bytes, i: nat, j: nat, text: Bytes) {
    && i + |text| <= j <= |d| && d[i..i + |text|] == text && forall k | i + |text| <= k < j :: d[k] == 0
  }

  lemma PadField(d: Bytes, i: nat, s: Bytes, n: nat)
    requires |s| <= n && Holds(d, i, Pad(s, n))
    ensures Field(d, i, i + n, s)
  {
    forall k | 0 <= k < n ensures d[i + k] == Pad(s, n)[k] {
      assert d[i + k] == d[i..i + n][k];
    }
    assert d[i..i + |s|] == d[i..i + n][..|s|] == Pad(s, n)[..|s|] == s;
    forall k | i + |s| <= k < i + n ensures d[k] == 0 {
      assert d[k] == Pad(s, n)[k - i];
    }
  }

  lemma NumberField(d: Bytes, i: nat, v: nat)
    requires v < U32 && Holds(d, i, U32Bytes(v))
    ensures i + 4 <= |d| && Number(d[i..i + 4]) == v
  {
    ReadU32(d, i, v);
    FourBytes(d, i);
  }

  function SizeBefore(files: seq<File>, i: nat): nat
    requires i <= |files|
  {
    if i == 0 then 0 else SizeBefore(files, i - 1) + |files[i - 1].data|
  }

  lemma {:induction false} SizeBeforeIs(files: seq<File>, i: nat)
    requires i <= |files|
    ensures OffsetOf(Bodies(files), i) == SizeBefore(files, i)
  {
    if i > 0 {
      SizeBeforeIs(files, i - 1);
    }
  }

  /** The header of an archive. */
  lemma HeaderFormat(p: Package, flags: nat, payload: Bytes)
    requires Texts(p) && NoNuls(p) && Packable(p, flags, payload)
    ensures var c, nd, nf := Container(p, flags, payload), |p.deps|, |p.files|;
            && |c| == 200 + 32 * nd + 40 * nf + |payload| && c[200 + 32 * nd + 40 * nf..] == payload
            && c[..4] == Ascii("SPKG") && Number(c[4..6]) == 1 && Number(c[6..8]) == flags
            && Field(c, 8, 40, p.name) && Field(c, 40, 56, p.version) && Field(c, 56, 184, p.desc)
            && Number(c[184..188]) == nd && Number(c[188..192]) == nf
            && Number(c[192..196]) == 200 + 32 * nd + 40 * nf && Number(c[196..200]) == |payload|
  {
    hide Number, U32At, U16At, CStr;
    var c := Container(p, flags, payload);
    ContainerLayout(p, flags, payload);
    MagicIs(c);
    TwoBytes(c, 4);
    TwoBytes(c, 6);
    FourBytes(c, 184);
    FourBytes(c, 188);
    FourBytes(c, 192);
    FourBytes(c, 196);
    HeaderFields(p, flags, payload);
    PadField(c, 8, p.name, 32);
    PadField(c, 40, p.version, 16);
    PadField(c, 56, p.desc, 128);
  }

  lemma HeaderFields(p: Package, flags: nat, payload: Bytes)
    requires Texts(p)
    ensures var c := Container(p, flags, payload);
            Holds(c, 8, Pad(p.name, 32)) && Holds(c, 40, Pad(p.version, 16)) && Holds(c, 56, Pad(p.desc, 128))
  {
  }

  /** Dependency record i. */
  lemma DepFormat(p: Package, flags: nat, payload: Bytes, i: nat)
    requires Texts(p) && NoNuls(p) && Packable(p, flags, payload) && i < |p.deps|
    ensures var at := 200 + 32 * i; Field(Container(p, flags, payload), at, at + 32, p.deps[i])
  {
    hide Container, Concat, DepBytes, Pad, Field;
    var c := Container(p, flags, payload);
    ContainerLayout(p, flags, payload);
    DepsLayout(p.deps, i);
    HoldsWithin(c, 200, Concat(DepBytes(p.deps)), i * 32, Pad(p.deps[i], 32));
    PadField(c, 200 + 32 * i, p.deps[i], 32);
  }

  lemma FileHolds(p: Package, flags: nat, payload: Bytes, i: nat)
    requires Texts(p) && NoNuls(p) && Packable(p, flags, payload) && i < |p.files|
    ensures var f, off := p.files[i], SizeBefore(p.files, i);
            && |f.name| <= 32 && |f.data| < U32 && off < U32
            && Holds(Container(p, flags, payload), 200 + 32 * |p.deps| + 40 * i, EntryBytes(f.name, |f.data|, off))
  {
    hide Container, Concat, FileTable, EntryBytes, OffsetOf, Bodies, U32At, U16At, CStr, Holds;
    var c, f, off := Container(p, flags, payload), p.files[i], OffsetOf(Bodies(p.files), i);
    SizeBeforeIs(p.files, i);
    ContainerLayout(p, flags, payload);
    TableLayout(p.files, i);
    HoldsWithin(c, 200 + 32 * |p.deps|, Concat(FileTable(p.files)), i * 40, EntryBytes(f.name, |f.data|, off));
  }

  /** File record i. */
  lemma FileFormat(p: Package, flags: nat, payload: Bytes, i: nat)
    requires Texts(p) && NoNuls(p) && Packable(p, flags, payload) && i < |p.files|
    ensures var c, at := Container(p, flags, payload), 200 + 32 * |p.deps| + 40 * i;
            && at + 40 <= |c| && Field(c, at, at + 32, p.files[i].name)
            && Number(c[at + 32..at + 36]) == |p.files[i].data| && Number(c[at + 36..at + 40]) == SizeBefore(p.files, i)
  {
    hide Container, Texts, NoNuls, Packable, Field, Number, EntryBytes, SizeBefore, Holds;
    var f := p.files[i];
    FileHolds(p, flags, payload, i);
    EntryFormat(Container(p, flags, payload), 200 + 32 * |p.deps| + 40 * i, f.name, |f.data|, SizeBefore(p.files, i));
  }

  lemma EntryFormat(c: Bytes, at: nat, name: Bytes, size: nat, off: nat)
    requires |name| <= 32 && size < U32 && off < U32 && Holds(c, at, EntryBytes(name, size, off))
    ensures at + 40 <= |c| && Field(c, at, at + 32, name)
    ensures Number(c[at + 32..at + 36]) == size && Number(c[at + 36..at + 40]) == off
  {
    hide Pad, Field, Number, U32Bytes, EntryBytes;
    var e := EntryBytes(name, size, off);
    EntryFields(name, size, off);
    HoldsWithin(c, at, e, 0, Pad(name, 32));
    HoldsWithin(c, at, e, 32, U32Bytes(size));
    HoldsWithin(c, at, e, 36, U32Bytes(off));
    PadField(c, at, name, 32);
    NumberField(c, at + 32, size);
    NumberField(c, at + 36, off);
  }

  // ---------------------------------------------------------------- names and lines

  /** What the file system keeps of a name, the manifest of a package, and its database line. */
  lemma NamesAre(name: Bytes, d: Bytes)
    ensures STINKDB == Ascii("STINKDB") && Stored(name) == name[..Min(|name|, 15)]
    ensures ListName(name) == Ascii("pkg-") + name + Ascii(".lst")
    ensures |d| >= 200 ==> DbLine(d) == CStr(d[8..40]) + Ascii(" ") + CStr(d[40..56]) + Ascii("\n")
  {
    hide CStr;
    assert Ascii("STINKDB") == [83, 84, 73, 78, 75, 68, 66];
    assert Ascii("pkg-") == [112, 107, 103, 45] && Ascii(".lst") == [46, 108, 115, 116];
    assert Ascii(" ") == [32] && Ascii("\n") == [10];
  }
}
