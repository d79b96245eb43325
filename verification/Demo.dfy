/** Demo recording and playback of apps/doom/g_game.c, and the turn carry that makes one-byte
    angles possible. */
module DemoModel {
  import opened Common

  type SByte = x: int | -0x80 <= x < 0x80
  type Short = x: int | -0x8000 <= x < 0x8000

  const DEMOMARKER: Octet := 0x80
  const HEADER := 13

  /** C's conversions to unsigned char, signed char and short. */
  function ToByte(n: int): Octet {
    n % 0x100
  }

  function ToSByte(n: int): SByte {
    (n + 0x80) % 0x100 - 0x80
  }

  function ToShort(n: int): Short {
    (n + 0x8000) % 0x10000 - 0x8000
  }

  /** Two bytes as one number. */
  function Join(lo: int, hi: int): int {
    lo + 0x100 * hi
  }

  // ---------------------------------------------------------------- turn carry

  function Sum(s: seq<int>): int {
    if s == [] then 0 else Sum(s[..|s| - 1]) + s[|s| - 1]
  }

  lemma SumStep(s: seq<int>, x: int)
    ensures Sum(s + [x]) == Sum(s) + x
  {
    assert (s + [x])[..|s|] == s;
  }

  /** n & 0xff00. */
  function HighByte(n: int): int {
    n % 0x10000 / 0x100 * 0x100
  }

  /** The 16-bit difference of two angles. */
  function TurnGap(a: int, b: int): Short {
    ToShort(a - b)
  }

  /** Rounding loses at most half a unit, and exactly what is lost is the difference. */
  lemma RoundedTurn(desired: Short)
    ensures var emitted := ToShort(HighByte(desired + 128));
            && emitted % 0x100 == 0
            && -128 <= ToShort(desired - emitted) <= 127
  {
    var n := desired + 128;
    var k, q, r := n / 0x10000, n % 0x10000 / 0x100, n % 0x100;
    assert n == 0x10000 * k + 0x100 * q + r;
    assert HighByte(n) == 0x100 * q;
    var emitted, wraps := ToShort(0x100 * q), if q < 128 then 0 else 1;
    assert emitted == 0x100 * (q - 0x100 * wraps);
    WholeTurnsDrop(r - 128, k + wraps);
  }

  lemma WholeTurnsDrop(x: Short, k: int)
    ensures ToShort(x + 0x10000 * k) == x
  {
    assert x + 0x10000 * k + 0x8000 == 0x10000 * k + (x + 0x8000);
  }

  class Turner {
    var carry: Short
    ghost var requested: seq<int>
    ghost var emitted: seq<int>

    constructor ()
      ensures Valid() && requested == emitted == []
    {
      carry, requested, emitted := 0, [], [];
    }

    /** After any run, what has been emitted differs from what was asked for by the carry. */
    ghost predicate Valid()
      reads this
    {
      && -128 <= carry <= 127 && |requested| == |emitted|
      && (Sum(emitted) + carry) % 0x10000 == Sum(requested) % 0x10000
      && forall i | 0 <= i < |emitted| :: emitted[i] % 0x100 == 0
    }

    /** The low-resolution branch of G_BuildTiccmd. */
    method Turn(angleturn: Short) returns (turn: Short)
      requires Valid()
      modifies this
      ensures Valid() && turn % 0x100 == 0
      ensures requested == old(requested) + [angleturn] && emitted == old(emitted) + [turn]
    {
      hide ToShort, HighByte, Sum;
      var desired := ToShort(angleturn + carry);
      turn := ToShort(HighByte(desired + 128));
      RoundedTurn(desired);
      Balance(Sum(emitted), Sum(requested), angleturn, carry, turn);
      carry := ToShort(desired - turn);
      SumStep(requested, angleturn);
      SumStep(emitted, turn);
      requested, emitted := requested + [angleturn], emitted + [turn];
    }

    /** No moment of a run is ever more than half a unit off the requested heading. */
    lemma HeadingError()
      requires Valid()
      ensures -128 <= TurnGap(Sum(requested), Sum(emitted)) <= 127
    {
      GapIsCarry(Sum(requested), Sum(emitted), carry);
    }
  }

  lemma GapIsCarry(a: int, b: int, c: Short)
    requires (b + c) % 0x10000 == a % 0x10000
    ensures TurnGap(a, b) == c
  {
    assert (a - b - c) % 0x10000 == 0;
    assert (a - b + 0x8000) % 0x10000 == (c + 0x8000) % 0x10000;
  }

  lemma Balance(e: int, r: int, angle: Short, carry: Short, turn: Short)
    requires (e + carry) % 0x10000 == r % 0x10000
    ensures var desired := ToShort(angle + carry);
            (e + turn + ToShort(desired - turn)) % 0x10000 == (r + angle) % 0x10000
  {
    hide ToShort;
    var desired := ToShort(angle + carry);
    var j := (e + carry) / 0x10000 - r / 0x10000;
    var k := WholeTurnsOff(angle + carry);
    var l := WholeTurnsOff(desired - turn);
    assert e + turn + ToShort(desired - turn) == r + angle + 0x10000 * (j + k + l);
    WholeTurns(r + angle, j + k + l);
  }

  lemma WholeTurnsOff(x: int) returns (k: int)
    ensures ToShort(x) == x + 0x10000 * k
  {
    k := -((x + 0x8000) / 0x10000);
  }

  lemma WholeTurns(x: int, k: int)
    ensures (x + 0x10000 * k) % 0x10000 == x % 0x10000
  {
    assert x + 0x10000 * k == 0x10000 * (x / 0x10000 + k) + x % 0x10000;
  }

  // ---------------------------------------------------------------- one command

  /** The fields of a tic command that a demo stores. */
  datatype DemoCmd = DemoCmd(forwardmove: SByte, sidemove: SByte, angleturn: Short, buttons: Octet)

  function Size(longtics: bool): nat {
    if longtics then 5 else 4
  }

  function Encode(cmd: DemoCmd, longtics: bool): (bytes: seq<Octet>)
    ensures |bytes| == Size(longtics)
  {
    [ToByte(cmd.forwardmove), ToByte(cmd.sidemove)] +
    (if longtics then [ToByte(cmd.angleturn), ToByte(cmd.angleturn / 0x100)] else [ToByte(cmd.angleturn / 0x100)]) +
    [cmd.buttons]
  }

  /** The bytes of a command at `at`: speeds modulo 256, the angle modulo 2^16 in two bytes, the low one
      first, or only the high byte of it, and the buttons. */
  ghost predicate CommandAt(b: seq<Octet>, at: nat, cmd: DemoCmd, longtics: bool) {
    && at + (if longtics then 5 else 4) <= |b|
    && b[at] == (if cmd.forwardmove < 0 then cmd.forwardmove + 256 else cmd.forwardmove)
    && b[at + 1] == (if cmd.sidemove < 0 then cmd.sidemove + 256 else cmd.sidemove)
    && var angle := if cmd.angleturn < 0 then cmd.angleturn + 0x10000 else cmd.angleturn;
       if longtics then b[at + 2] as int + 256 * b[at + 3] as int == angle && b[at + 4] == cmd.buttons
       else b[at + 2] == angle / 256 && b[at + 3] == cmd.buttons
  }

  lemma EncodeBytes(cmd: DemoCmd, longtics: bool)
    ensures |Encode(cmd, longtics)| == (if longtics then 5 else 4) && CommandAt(Encode(cmd, longtics), 0, cmd, longtics)
  {
    hide ToByte;
    ByteIs(cmd.forwardmove);
    ByteIs(cmd.sidemove);
    AngleBytes(cmd.angleturn);
  }

  lemma ByteIs(x: SByte)
    ensures ToByte(x) == if x < 0 then x + 256 else x
  {
  }

  lemma AngleBytes(x: Short)
    ensures var angle := if x < 0 then x + 0x10000 else x;
            ToByte(x) as int + 256 * ToByte(x / 0x100) as int == angle && ToByte(x / 0x100) == angle / 256
  {
  }

  /** No two commands have the same bytes, but for the low byte of the angle, which reads as zero. */
  lemma DecodeBytes(b: seq<Octet>, longtics: bool)
    requires |b| == Size(longtics)
    ensures Decode(b, longtics).EndOfDemo? <==> b[0] == 0x80
    ensures var r := Decode(b, longtics);
            r.Read? ==> CommandAt(b, 0, r.cmd, longtics) && (longtics || r.cmd.angleturn % 256 == 0)
  {
    hide ToSByte, ToShort;
    SByteIs(b[0]);
    SByteIs(b[1]);
    ShortIs(Join(b[2], b[3]));
    ShortIs(Join(0, b[2]));
  }

  lemma SByteIs(x: Octet)
    ensures ToSByte(x) == if x >= 128 then x - 256 else x
  {
  }

  lemma ShortIs(x: nat)
    requires x < 0x10000
    ensures ToShort(x) == if x >= 0x8000 then x - 0x10000 else x
  {
  }

  /** What a stored command reads back as; None is the end-of-demo marker. */
  datatype Reading = EndOfDemo | Read(cmd: DemoCmd)

  function Decode(bytes: seq<Octet>, longtics: bool): Reading
    requires |bytes| == Size(longtics)
  {
    if bytes[0] == DEMOMARKER then EndOfDemo
    else Read(DemoCmd(ToSByte(bytes[0]), ToSByte(bytes[1]),
                      ToShort(if longtics then Join(bytes[2], bytes[3]) else Join(0, bytes[2])),
                      bytes[Size(longtics) - 1]))
  }

  /** A command as a demo of this resolution can hold it. */
  function Stored(cmd: DemoCmd, longtics: bool): DemoCmd {
    if longtics then cmd else cmd.(angleturn := cmd.angleturn / 0x100 * 0x100)
  }

  lemma SByteBack(x: SByte)
    ensures ToSByte(ToByte(x)) == x && (ToByte(x) == DEMOMARKER <==> x == -128)
  {
  }

  lemma ShortBack(x: Short)
    ensures ToShort(Join(ToByte(x), ToByte(x / 0x100))) == x
    ensures ToShort(Join(0, ToByte(x / 0x100))) == x / 0x100 * 0x100
  {
    hide ToShort, ToByte;
    var h, l: int := x / 0x100, x % 0x100;
    Halves(x, h);
    ShortWraps(0x100 * h + l);
    ShortWraps(0x100 * h);
  }

  lemma Halves(x: Short, h: SByte)
    ensures ToByte(x) == x % 0x100
    ensures ToByte(h) == if h < 0 then h + 0x100 else h
  {
  }

  lemma ShortWraps(x: Short)
    ensures ToShort(x) == x == ToShort(x + 0x10000)
  {
  }

  lemma ReadBack(cmd: DemoCmd, longtics: bool)
    ensures Decode(Encode(cmd, longtics), longtics) ==
            if cmd.forwardmove == -128 then EndOfDemo else Read(Stored(cmd, longtics))
  {
    hide ToByte, ToSByte, ToShort, Join;
    SByteBack(cmd.forwardmove);
    SByteBack(cmd.sidemove);
    ShortBack(cmd.angleturn);
  }

  /** A command survives exactly if it is not a full-speed -128 and its angle fits the format. */
  lemma SurvivesIff(cmd: DemoCmd, longtics: bool)
    ensures Decode(Encode(cmd, longtics), longtics) == Read(cmd) <==>
            cmd.forwardmove != -128 && (longtics || cmd.angleturn % 0x100 == 0)
  {
    ReadBack(cmd, longtics);
  }

  /** The speed that G_BuildTiccmd stores: clamped to the limit, then narrowed to a signed char. */
  function MoveByte(forward: int, limit: nat): SByte {
    ToSByte(if forward > limit then limit else if forward < 0 - limit then 0 - limit else forward)
  }

  /** The limit is 50, scaled by -turbo's percentage: some speed is the end marker exactly from 256%
      on. */
  lemma TurboMarker(percent: nat)
    requires 10 <= percent <= 400
    ensures (exists forward :: MoveByte(forward, 50 * percent / 100) == -128) <==> percent >= 256
  {
    var limit := 50 * percent / 100;
    if percent >= 256 {
      assert MoveByte(128, limit) == -128;
    } else {
      forall forward: int ensures MoveByte(forward, limit) != -128 {
      }
    }
  }

  // ---------------------------------------------------------------- whole demos

  function EncodeAll(cmds: seq<DemoCmd>, longtics: bool): seq<Octet> {
    if cmds == [] then [] else EncodeAll(cmds[..|cmds| - 1], longtics) + Encode(cmds[|cmds| - 1], longtics)
  }

  lemma EncodeStep(cmds: seq<DemoCmd>, cmd: DemoCmd, longtics: bool)
    ensures EncodeAll(cmds + [cmd], longtics) == EncodeAll(cmds, longtics) + Encode(cmd, longtics)
  {
    assert (cmds + [cmd])[..|cmds|] == cmds;
  }

  lemma {:induction false} EncodeLength(cmds: seq<DemoCmd>, longtics: bool)
    ensures |EncodeAll(cmds, longtics)| == |cmds| * Size(longtics)
  {
    if cmds != [] {
      EncodeLength(cmds[..|cmds| - 1], longtics);
    }
  }

  /** Command k of a demo starts k sizes in. */
  lemma {:induction false} EncodeAt(cmds: seq<DemoCmd>, longtics: bool, k: nat)
    requires k < |cmds|
    ensures |EncodeAll(cmds, longtics)| == |cmds| * Size(longtics)
    ensures EncodeAll(cmds, longtics)[k * Size(longtics)..(k + 1) * Size(longtics)] == Encode(cmds[k], longtics)
  {
    hide Encode;
    var n, size := |cmds| - 1, Size(longtics);
    EncodeLength(cmds, longtics);
    EncodeLength(cmds[..n], longtics);
    assert (n + 1) * size == n * size + size;
    if k < n {
      EncodeAt(cmds[..n], longtics, k);
      Earlier(k, n, size);
    }
  }

  lemma Earlier(k: nat, n: nat, size: nat)
    requires k < n
    ensures 0 <= k * size <= (k + 1) * size <= n * size
  {
  }

  /** A whole demo file. */
  function DemoFile(header: seq<Octet>, cmds: seq<DemoCmd>, longtics: bool): seq<Octet> {
    header + EncodeAll(cmds, longtics) + [DEMOMARKER]
  }

  /** A command that a demo of this resolution holds exactly. */
  ghost predicate Playable(cmd: DemoCmd, longtics: bool) {
    cmd.forwardmove != -128 && (longtics || cmd.angleturn % 0x100 == 0)
  }

  /** What becomes of one recorded command. */
  datatype Outcome = Kept(cmd: DemoCmd) | Ended(file: seq<Octet>)

  class Demo {
    var demobuffer: array<Octet>
    var demoP: nat
    const longtics: bool
    const vanillaDemoLimit: bool
    ghost const header: seq<Octet>
    ghost var log: seq<DemoCmd>  // the commands on record

    /** G_RecordDemo and G_BeginRecording: the 13 header bytes go into a fresh buffer. */
    constructor (maxsize: nat, header: seq<Octet>, longtics: bool, vanillaDemoLimit: bool)
      requires maxsize >= HEADER + 5 && |header| == HEADER
      ensures Valid() && fresh(demobuffer) && log == [] && demobuffer.Length == maxsize
      ensures this.header == header && this.longtics == longtics && this.vanillaDemoLimit == vanillaDemoLimit
    {
      demobuffer := new Octet[maxsize](i => if 0 <= i < |header| then header[i] else 0);
      demoP := HEADER;
      this.longtics, this.vanillaDemoLimit, this.header := longtics, vanillaDemoLimit, header;
      log := [];
      new;
      assert demobuffer[..HEADER] == header;
    }

    /** G_DoPlayDemo: the file, positioned after its header. */
    constructor ForPlayback(file: seq<Octet>, longtics: bool)
      requires |file| >= HEADER
      ensures fresh(demobuffer) && demobuffer[..] == file && demoP == HEADER
      ensures this.longtics == longtics && header == file[..HEADER]
    {
      demobuffer := new Octet[|file|](i requires 0 <= i < |file| => file[i]);
      demoP := HEADER;
      this.longtics, vanillaDemoLimit, header := longtics, false, file[..HEADER];
      log := [];
    }

    /** There is room for one more command, and the buffer holds the demo so far. */
    ghost predicate Valid()
      reads this, demobuffer
    {
      && |header| == HEADER && HEADER <= demoP && demoP + 5 <= demobuffer.Length
      && demobuffer[..demoP] == header + EncodeAll(log, longtics)
    }

    method Put(b: Octet)
      requires demoP < demobuffer.Length
      modifies this`demoP, demobuffer
      ensures demoP == old(demoP) + 1 && demobuffer[..] == old(demobuffer[..])[old(demoP) := b]
    {
      demobuffer[demoP] := b;
      demoP := demoP + 1;
    }

    /** The stores of G_WriteDemoTiccmd. */
    method PutTiccmd(cmd: DemoCmd)
      requires demoP + Size(longtics) <= demobuffer.Length
      modifies this`demoP, demobuffer
      ensures demoP == old(demoP) + Size(longtics)
      ensures demobuffer[..demoP] == old(demobuffer[..demoP]) + Encode(cmd, longtics)
      ensures CommandAt(demobuffer[..], old(demoP), cmd, longtics)
    {
      ghost var before, at := demobuffer[..], demoP;
      Put(ToByte(cmd.forwardmove));
      Put(ToByte(cmd.sidemove));
      if longtics {
        Put(ToByte(cmd.angleturn % 0x100));
        Put(ToByte(cmd.angleturn / 0x100 % 0x100));
      } else {
        Put(ToByte(cmd.angleturn / 0x100));
      }
      Put(cmd.buttons);
      EncodeBytes(cmd, longtics);
      Placed(demobuffer[..demoP], old(demobuffer[..demoP]), demobuffer[..], cmd, longtics);
    }

    /** Bytes behind those already written. */
    lemma Placed(b: seq<Octet>, before: seq<Octet>, all: seq<Octet>, cmd: DemoCmd, longtics: bool)
      requires b == before + Encode(cmd, longtics) && b <= all && CommandAt(Encode(cmd, longtics), 0, cmd, longtics)
      ensures CommandAt(all, |before|, cmd, longtics)
    {
      hide Encode;
      var e := Encode(cmd, longtics);
      assert forall k | 0 <= k < |e| :: all[|before| + k] == b[|before| + k] == e[k];
    }

    /** G_ReadDemoTiccmd; at the end marker nothing is read. */
    method ReadDemoTiccmd() returns (r: Reading)
      requires demoP < demobuffer.Length
      requires demobuffer[demoP] != DEMOMARKER ==> demoP + Size(longtics) <= demobuffer.Length
      modifies this`demoP
      ensures r.EndOfDemo? <==> demobuffer[old(demoP)] == 0x80
      ensures r.EndOfDemo? ==> demoP == old(demoP)
      ensures r.Read? ==>
        && demoP == old(demoP) + Size(longtics)
        && r == Decode(demobuffer[old(demoP)..demoP], longtics)
        && CommandAt(demobuffer[..], old(demoP), r.cmd, longtics) && (longtics || r.cmd.angleturn % 256 == 0)
    {
      if demobuffer[demoP] == DEMOMARKER {
        return EndOfDemo;
      }
      var forwardmove, sidemove := ToSByte(demobuffer[demoP]), ToSByte(demobuffer[demoP + 1]);
      demoP := demoP + 2;
      var angleturn: Short;
      if longtics {
        angleturn := ToShort(Join(demobuffer[demoP], demobuffer[demoP + 1]));
        demoP := demoP + 2;
      } else {
        angleturn := ToShort(Join(0, demobuffer[demoP]));
        demoP := demoP + 1;
      }
      r := Read(DemoCmd(forwardmove, sidemove, angleturn, demobuffer[demoP]));
      demoP := demoP + 1;
      DecodeBytes(demobuffer[old(demoP)..demoP], longtics);
    }

    /** A buffer of twice the size with the same contents. */
    method IncreaseDemoBuffer()
      requires demobuffer.Length > 0
      modifies this`demobuffer
      ensures fresh(demobuffer) && demobuffer.Length == 2 * old(demobuffer.Length)
      ensures demobuffer[..old(demobuffer.Length)] == old(demobuffer[..])
    {
      var currentLength := demobuffer.Length;
      var newDemobuffer := new Octet[currentLength * 2];
      for i := 0 to currentLength
        invariant demobuffer == old(demobuffer) && demobuffer[..] == old(demobuffer[..])
        invariant newDemobuffer[..i] == demobuffer[..i]
      {
        newDemobuffer[i] := demobuffer[i];
      }
      demobuffer := newDemobuffer;
    }

    /** G_CheckDemoStatus while recording: the marker is added and the file written. */
    method CheckDemoStatus() returns (file: seq<Octet>)
      requires Valid()
      modifies this`demoP, demobuffer
      ensures file == DemoFile(header, log, longtics)
    {
      Put(DEMOMARKER);
      file := demobuffer[..demoP];
    }

    /** G_WriteDemoTiccmd. No store goes past the end of the buffer, whatever its size; what is
        kept is what the demo will play back. */
    method WriteDemoTiccmd(cmd: DemoCmd, quit: bool) returns (r: Outcome)
      requires Valid()
      modifies this, demobuffer
      ensures r.Kept? <==>
                !quit && cmd.forwardmove != -128 && !(vanillaDemoLimit && old(demoP) > old(demobuffer.Length) - 16)
      ensures r.Kept? ==>
        && Valid() && r.cmd == Stored(cmd, longtics) && log == old(log) + [r.cmd]
        && (demobuffer == old(demobuffer) || fresh(demobuffer))
      ensures r.Ended? ==> r.file == DemoFile(header, old(log), longtics)
    {
      hide Encode, Decode, EncodeAll;
      if quit {
        var file := CheckDemoStatus();
        return Ended(file);
      }
      var demoStart := demoP;
      PutTiccmd(cmd);
      ghost var stored := demobuffer[..demoP];
      demoP := demoStart;
      assert demobuffer[..demoP] == stored[..demoP];
      if demoP > demobuffer.Length - 16 {
        if vanillaDemoLimit {
          var file := CheckDemoStatus();
          return Ended(file);
        }
        IncreaseDemoBuffer();
      }
      r := KeepTiccmd(cmd, stored);
    }

    /** The read that follows every write. */
    method KeepTiccmd(ghost cmd: DemoCmd, ghost stored: seq<Octet>) returns (r: Outcome)
      requires Valid() && demoP + Size(longtics) + 5 <= demobuffer.Length
      requires stored == header + EncodeAll(log, longtics) + Encode(cmd, longtics)
      requires demobuffer[..demoP + Size(longtics)] == stored
      modifies this, demobuffer
      ensures r.Kept? <==> cmd.forwardmove != -128
      ensures r.Kept? ==>
                Valid() && r.cmd == Stored(cmd, longtics) && log == old(log) + [r.cmd] && demobuffer == old(demobuffer)
      ensures r.Ended? ==> r.file == DemoFile(header, old(log), longtics)
    {
      hide Encode, Decode, EncodeAll;
      ReadBack(cmd, longtics);
      MarkerByte(cmd, longtics);
      assert demobuffer[demoP..demoP + Size(longtics)] == Encode(cmd, longtics);
      assert demobuffer[demoP] == Encode(cmd, longtics)[0];
      var read := ReadDemoTiccmd();
      if read.EndOfDemo? {
        var file := CheckDemoStatus();
        return Ended(file);
      }
      StoredEncodes(cmd, longtics);
      EncodeStep(log, read.cmd, longtics);
      log := log + [read.cmd];
      r := Kept(read.cmd);
    }

    /** Playback: reads commands until the marker. */
    method Replay(ghost cmds: seq<DemoCmd>) returns (played: seq<DemoCmd>)
      requires demoP == HEADER == |header| && demobuffer[..] == DemoFile(header, cmds, longtics)
      requires forall k | 0 <= k < |cmds| :: Playable(cmds[k], longtics)
      modifies this`demoP
      ensures played == cmds
    {
      hide Encode, Decode, EncodeAll;
      played := [];
      EncodeLength(cmds, longtics);
      while true
        invariant |played| <= |cmds| && played == cmds[..|played|]
        invariant demoP == HEADER + |played| * Size(longtics)
        decreases |cmds| - |played|
      {
        ghost var k := |played|;
        if k < |cmds| {
          AtCommand(demobuffer[..], header, cmds, longtics, k);
        }
        var r := ReadDemoTiccmd();
        if r.EndOfDemo? {
          break;
        }
        played := played + [r.cmd];
      }
    }
  }

  /** Recording any playable commands into a buffer without the vanilla limit and playing the file
      gives the same commands, however often the buffer had to grow. */
  method RecordAndReplay(cmds: seq<DemoCmd>, maxsize: nat, header: seq<Octet>, longtics: bool)
      returns (played: seq<DemoCmd>)
    requires maxsize >= HEADER + 5 && |header| == HEADER
    requires forall k | 0 <= k < |cmds| :: Playable(cmds[k], longtics)
    ensures played == cmds
  {
    hide EncodeAll;
    var demo := new Demo(maxsize, header, longtics, false);
    for k := 0 to |cmds|
      invariant demo.Valid() && demo.log == cmds[..k] && fresh(demo) && fresh(demo.demobuffer)
    {
      var r := demo.WriteDemoTiccmd(cmds[k], false);
      assert r.cmd == cmds[k];
    }
    assert cmds[..|cmds|] == cmds;
    var file := demo.CheckDemoStatus();
    var player := new Demo.ForPlayback(file, longtics);
    played := player.Replay(cmds);
  }

  /** The angles of a list of commands. */
  function Angles(cmds: seq<DemoCmd>): (angles: seq<int>)
    ensures |angles| == |cmds| && forall i | 0 <= i < |cmds| :: angles[i] == cmds[i].angleturn
  {
    seq(|cmds|, i requires 0 <= i < |cmds| => cmds[i].angleturn)
  }

  /** b is a with other, low-resolution angles. */
  ghost predicate Turned(a: DemoCmd, b: DemoCmd) {
    b == a.(angleturn := b.angleturn) && b.angleturn % 0x100 == 0
  }

  /** A low-resolution recording of any commands short of the end marker: each angle goes through the
      turn carry, the recorder and the player. What is played is what was emitted, and the heading it
      reaches is at most half a unit from the one requested. */
  method RecordTurning(requests: seq<DemoCmd>, maxsize: nat, header: seq<Octet>) returns (played: seq<DemoCmd>)
    requires maxsize >= HEADER + 5 && |header| == HEADER
    requires forall k | 0 <= k < |requests| :: requests[k].forwardmove != -128
    ensures |played| == |requests| && forall k | 0 <= k < |requests| :: Turned(requests[k], played[k])
    ensures -128 <= TurnGap(Sum(Angles(requests)), Sum(Angles(played))) <= 127
  {
    hide Sum, TurnGap;
    var turner := new Turner();
    var emitted: seq<DemoCmd> := [];
    for k := 0 to |requests|
      invariant turner.Valid() && fresh(turner) && |emitted| == k
      invariant turner.requested == Angles(requests[..k]) && turner.emitted == Angles(emitted)
      invariant forall i | 0 <= i < k :: Turned(requests[i], emitted[i])
    {
      var turn := turner.Turn(requests[k].angleturn);
      ghost var more := requests[..k + 1];
      emitted := emitted + [requests[k].(angleturn := turn)];
      assert Angles(more) == Angles(requests[..k]) + [requests[k].angleturn as int];
    }
    assert requests[..|requests|] == requests;
    played := RecordAndReplay(emitted, maxsize, header, false);
    turner.HeadingError();
  }

  lemma MarkerByte(cmd: DemoCmd, longtics: bool)
    ensures Encode(cmd, longtics)[0] == DEMOMARKER <==> cmd.forwardmove == -128
  {
  }

  /** Storing a command and what it reads back as writes the same bytes. */
  lemma StoredEncodes(cmd: DemoCmd, longtics: bool)
    ensures Encode(Stored(cmd, longtics), longtics) == Encode(cmd, longtics)
  {
  }

  lemma AtCommand(file: seq<Octet>, header: seq<Octet>, cmds: seq<DemoCmd>, longtics: bool, k: nat)
    requires |header| == HEADER && file == DemoFile(header, cmds, longtics) && k < |cmds| && Playable(cmds[k], longtics)
    ensures HEADER + (k + 1) * Size(longtics) < |file|
    ensures file[HEADER + k * Size(longtics)] != DEMOMARKER
    ensures Decode(file[HEADER + k * Size(longtics)..HEADER + (k + 1) * Size(longtics)], longtics) == Read(cmds[k])
  {
    hide Encode, Decode, EncodeAll;
    EncodeAt(cmds, longtics, k);
    ReadBack(cmds[k], longtics);
    MarkerByte(cmds[k], longtics);
    var all, at, to := EncodeAll(cmds, longtics), k * Size(longtics), (k + 1) * Size(longtics);
    assert to <= |all| by {
      Scale(k + 1, |cmds|, Size(longtics));
    }
    assert file[HEADER + at..HEADER + to] == all[at..to];
    assert file[HEADER + at] == all[at..to][0];
  }
}
