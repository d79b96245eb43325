/** StinkFS as its system calls present it to a program: a flat map from names to bytes. */
module StinkFsModel {
  import Sha256Model

  type Byte = Sha256Model.Byte
  type Bytes = seq<Byte>

  const NAME_MAX := 15

  /** The system calls copy at most 15 characters of a name. */
  function Stored(name: Bytes): Bytes {
    if |name| <= NAME_MAX then name else name[..NAME_MAX]
  }

  function Prefix(s: Bytes, max: nat): Bytes {
    if |s| <= max then s else s[..max]
  }

  class Fs {
    var files: map<Bytes, Bytes>
    ghost var writes: seq<bool>  // outcomes of the writes and appends so far

    constructor ()
      ensures files == map[] && writes == []
    {
      files, writes := map[], [];
    }

    /** sys_fwrite: creates or replaces; it may fail, and then changes nothing. */
    method Fwrite(name: Bytes, data: Bytes) returns (ok: bool)
      modifies this
      ensures files == if ok then old(files)[Stored(name) := data] else old(files)
      ensures writes == old(writes) + [ok]
    {
      ok := *;
      writes := writes + [ok];
      if ok {
        files := files[Stored(name) := data];
      }
    }

    /** sys_fappend: like a write, after what the file holds already. */
    method Fappend(name: Bytes, data: Bytes) returns (ok: bool)
      modifies this
      ensures files == if ok then old(files)[Stored(name) := Contents(old(files), name) + data] else old(files)
      ensures writes == old(writes) + [ok]
    {
      ok := *;
      writes := writes + [ok];
      if ok {
        files := files[Stored(name) := Contents(files, name) + data];
      }
    }

    /** sys_fread: the first `max` bytes, or -1 for a missing file. */
    method Fread(name: Bytes, max: nat) returns (n: int, data: Bytes)
      ensures if Stored(name) in files then n == |data| && data == Prefix(files[Stored(name)], max)
              else n == -1 && data == []
    {
      if Stored(name) !in files {
        return -1, [];
      }
      data := Prefix(files[Stored(name)], max);
      n := |data|;
    }

    /** sys_fcount and sys_finfo: every name once, in directory order. */
    method Directory() returns (names: seq<Bytes>)
      ensures forall name :: name in names <==> name in files
      ensures forall i, j | 0 <= i < j < |names| :: names[i] != names[j]
    {
      names := [];
      var rest := files.Keys;
      while rest != {}
        invariant forall name :: name in files <==> name in names || name in rest
        invariant forall name | name in names :: name !in rest
        invariant forall i, j | 0 <= i < j < |names| :: names[i] != names[j]
        decreases rest
      {
        var name :| name in rest;
        names := names + [name];
        rest := rest - {name};
      }
    }
  }

  /** A missing file reads like an empty one. */
  function Contents(files: map<Bytes, Bytes>, name: Bytes): Bytes {
    if Stored(name) in files then files[Stored(name)] else []
  }
}
