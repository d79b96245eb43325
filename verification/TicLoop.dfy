/** The single-player tic loop of apps/doom/d_loop.c: the ring of tic commands between the code
    that samples input on the clock and the code that runs the game. */
module TicLoopModel {
  import opened Common

  const BACKUPTICS := 128
  const NET_MAXPLAYERS := 8
  const BT_SPECIAL: bv8 := 128

  /** The fields of ticcmd_t that Doom uses. */
  datatype TicCmd = TicCmd(forwardmove: int, sidemove: int, angleturn: int, chatchar: bv8, buttons: bv8,
                           consistancy: bv8)

  /** ticcmd_set_t. */
  datatype TicSet = TicSet(cmds: seq<TicCmd>, ingame: seq<bool>)

  const IDLE := TicCmd(0, 0, 0, 0, 0, 0)

  /** A command as it is repeated: movement stays, chat and special buttons are dropped. */
  function Squashed(cmd: TicCmd): TicCmd {
    cmd.(chatchar := 0, buttons := if cmd.buttons & BT_SPECIAL != 0 then 0 else cmd.buttons)
  }

  /** The set in which only the local player is in the game and has a command. */
  function Own(local: nat, cmd: TicCmd): TicSet {
    TicSet(seq(NET_MAXPLAYERS, i => if i == local then cmd else IDLE), seq(NET_MAXPLAYERS, i => i == local))
  }

  lemma OwnIs(local: nat, cmd: TicCmd)
    ensures var s := Own(local, cmd);
            && |s.ingame| == |s.cmds| == 8 && (forall i | 0 <= i < 8 :: s.ingame[i] <==> i == local)
            && (local < 8 ==> s.cmds[local] == cmd)
  {
  }

  /** No other player has ever had a command here. */
  ghost predicate OthersIdle(local: nat, set0: TicSet) {
    && |set0.cmds| == |set0.ingame| == NET_MAXPLAYERS
    && forall i | 0 <= i < NET_MAXPLAYERS && i != local :: set0.cmds[i] == IDLE && !set0.ingame[i]
  }

  /** The first n runs of one command: once as built, then squashed. */
  function Repeat(local: nat, cmd: TicCmd, n: nat): seq<TicSet> {
    if n == 0 then [] else Repeat(local, cmd, n - 1) + [Own(local, if n == 1 then cmd else Squashed(cmd))]
  }

  /** Every command of a list, in order, each run `ticdup` times. */
  function Runs(local: nat, cmds: seq<TicCmd>, ticdup: nat): seq<TicSet> {
    if cmds == [] then []
    else Runs(local, cmds[..|cmds| - 1], ticdup) + Repeat(local, cmds[|cmds| - 1], ticdup)
  }

  lemma {:induction false} RepeatAt(local: nat, cmd: TicCmd, n: nat)
    ensures |Repeat(local, cmd, n)| == n
    ensures forall i | 0 <= i < n :: Repeat(local, cmd, n)[i] == Own(local, if i == 0 then cmd else Squashed(cmd))
  {
    if n > 0 {
      RepeatAt(local, cmd, n - 1);
    }
  }

  lemma Quotient(n: nat, k: nat, d: nat)
    requires d > 0 && n * d <= k < n * d + d
    ensures k / d == n && k % d == k - n * d
  {
    var x := k / d - n;
    assert x * d == (k / d) * d - n * d;
    AtLeastOne(x, d);
  }

  lemma AtLeastOne(x: int, d: nat)
    ensures x >= 1 ==> x * d >= d
    ensures x <= -1 ==> x * d <= 0 - d
  {
  }

  lemma Below(k: nat, n: nat, d: nat)
    requires d > 0 && k < n * d
    ensures k / d < n
  {
    if k / d >= n {
      Scale(n, k / d, d);
    }
  }

  lemma OneMore(n: nat, d: nat)
    ensures (n + 1) * d == n * d + d
  {
  }

  lemma {:induction false} RunsLength(local: nat, cmds: seq<TicCmd>, ticdup: nat)
    ensures |Runs(local, cmds, ticdup)| == |cmds| * ticdup
  {
    if cmds != [] {
      var n := |cmds| - 1;
      RunsLength(local, cmds[..n], ticdup);
      RepeatAt(local, cmds[n], ticdup);
      OneMore(n, ticdup);
    }
  }

  /** Tic k of a run executes command k / ticdup: as built the first time, squashed after that. */
  lemma {:induction false} RunAt(local: nat, cmds: seq<TicCmd>, ticdup: nat, k: nat)
    requires ticdup > 0 && k < |cmds| * ticdup
    ensures |Runs(local, cmds, ticdup)| == |cmds| * ticdup
    ensures k / ticdup < |cmds|
    ensures Runs(local, cmds, ticdup)[k] ==
            Own(local, if k % ticdup == 0 then cmds[k / ticdup] else Squashed(cmds[k / ticdup]))
  {
    hide Own, Squashed, Repeat, Runs;
    RunsLength(local, cmds, ticdup);
    Below(k, |cmds|, ticdup);
    var n := |cmds| - 1;
    RunsLength(local, cmds[..n], ticdup);
    RepeatAt(local, cmds[n], ticdup);
    OneMore(n, ticdup);
    RunsStep(local, cmds, ticdup, n);
    assert cmds[..n + 1] == cmds;
    if k < n * ticdup {
      RunAt(local, cmds[..n], ticdup, k);
    } else {
      Quotient(n, k, ticdup);
    }
  }

  lemma OneRun(local: nat, cmds: seq<TicCmd>, n: nat, ticdup: nat, k: nat)
    requires n <= |cmds| && ticdup > 0 && k < n * ticdup
    ensures |Runs(local, cmds[..n], ticdup)| == n * ticdup && k / ticdup < n
    ensures Runs(local, cmds[..n], ticdup)[k] ==
            Own(local, if k % ticdup == 0 then cmds[k / ticdup] else Squashed(cmds[k / ticdup]))
  {
    hide Own, Squashed, Runs;
    RunAt(local, cmds[..n], ticdup, k);
  }

  lemma RunsStep(local: nat, cmds: seq<TicCmd>, ticdup: nat, n: nat)
    requires n < |cmds|
    ensures Runs(local, cmds[..n + 1], ticdup) == Runs(local, cmds[..n], ticdup) + Repeat(local, cmds[n], ticdup)
  {
    assert cmds[..n + 1][..n] == cmds[..n];
  }

  /** A command asks for nothing special more than once, whatever ticdup is. */
  lemma RepeatsAreHarmless(cmd: TicCmd)
    ensures Squashed(cmd).chatchar == 0 && Squashed(cmd).buttons & 128 == 0
    ensures Squashed(cmd).buttons == cmd.buttons || (Squashed(cmd).buttons == 0 && cmd.buttons & 128 != 0)
    ensures var s := Squashed(cmd);
            s.forwardmove == cmd.forwardmove && s.sidemove == cmd.sidemove && s.angleturn == cmd.angleturn
    ensures Squashed(Squashed(cmd)) == Squashed(cmd)
    ensures Squashed(cmd) == cmd <==> cmd.chatchar == 0 && cmd.buttons & BT_SPECIAL == 0
  {
  }

  function SquashedSet(s: TicSet): TicSet {
    TicSet(seq(|s.cmds|, i requires 0 <= i < |s.cmds| => Squashed(s.cmds[i])), s.ingame)
  }

  lemma SquashOwn(local: nat, cmd: TicCmd)
    ensures SquashedSet(Own(local, cmd)) == Own(local, Squashed(cmd))
  {
    assert Squashed(IDLE) == IDLE;
  }

  lemma OwnUnique(local: nat, s: TicSet, cmd: TicCmd)
    requires local < NET_MAXPLAYERS && OthersIdle(local, s)
    ensures TicSet(s.cmds[local := cmd], s.ingame[local := true]) == Own(local, cmd)
  {
    assert s.cmds[local := cmd] == Own(local, cmd).cmds;
    assert s.ingame[local := true] == Own(local, cmd).ingame;
  }

  /** Commands less than a ring apart have slots of their own. */
  lemma SlotsDiffer(a: nat, b: nat)
    requires a < b < a + BACKUPTICS
    ensures a % BACKUPTICS != b % BACKUPTICS
  {
  }

  method TicdupSquash(ticdata: array<TicSet>, slot: nat)
    requires slot < ticdata.Length && |ticdata[slot].cmds| == NET_MAXPLAYERS
    modifies ticdata
    ensures ticdata[..] == old(ticdata[..])[slot := SquashedSet(old(ticdata[slot]))]
  {
    ghost var s := ticdata[slot];
    for i := 0 to NET_MAXPLAYERS
      invariant |ticdata[slot].cmds| == NET_MAXPLAYERS && ticdata[slot].ingame == s.ingame
      invariant forall k | 0 <= k < NET_MAXPLAYERS ::
                  ticdata[slot].cmds[k] == if k < i then Squashed(s.cmds[k]) else s.cmds[k]
      invariant forall k | 0 <= k < ticdata.Length && k != slot :: ticdata[k] == old(ticdata[k])
    {
      var cmds := ticdata[slot].cmds;
      var cmd := cmds[i].(chatchar := 0);
      if cmd.buttons & BT_SPECIAL != 0 {
        cmd := cmd.(buttons := 0);
      }
      ticdata[slot] := ticdata[slot].(cmds := cmds[i := cmd]);
    }
    assert ticdata[slot].cmds == SquashedSet(s).cmds;
  }

  method SinglePlayerClear(ticdata: array<TicSet>, slot: nat, localplayer: nat)
    requires slot < ticdata.Length && |ticdata[slot].ingame| == NET_MAXPLAYERS
    modifies ticdata
    ensures |ticdata[slot].ingame| == NET_MAXPLAYERS && ticdata[slot].cmds == old(ticdata[slot].cmds)
    ensures forall i | 0 <= i < NET_MAXPLAYERS ::
              ticdata[slot].ingame[i] == (i == localplayer && old(ticdata[slot].ingame[i]))
    ensures forall k | 0 <= k < ticdata.Length && k != slot :: ticdata[k] == old(ticdata[k])
  {
    for i := 0 to NET_MAXPLAYERS
      invariant |ticdata[slot].ingame| == NET_MAXPLAYERS && ticdata[slot].cmds == old(ticdata[slot].cmds)
      invariant forall k | 0 <= k < NET_MAXPLAYERS ::
                  ticdata[slot].ingame[k] == (old(ticdata[slot].ingame[k]) && (k < i ==> k == localplayer))
      invariant forall k | 0 <= k < ticdata.Length && k != slot :: ticdata[k] == old(ticdata[k])
    {
      if i != localplayer {
        ticdata[slot] := ticdata[slot].(ingame := ticdata[slot].ingame[i := false]);
      }
    }
  }

  class TicLoop {
    const ticdup: nat
    const newSync: bool
    const singletics: bool
    const localplayer: nat
    const ticdata: array<TicSet>
    var maketic: int
    var gametic: int
    var skiptics: int
    var lasttime: int
    var oldentertics: int
    var localPlayerInGame: seq<bool>
    ghost var built: seq<TicCmd>  // every command ever built
    ghost var ran: seq<TicSet>    // every set ever handed to RunTic
    ghost var consumed: nat       // commands whose tics have all been run
    ghost var clock: int          // the last reading of the clock while waiting, divided by ticdup

    constructor (ticdup: nat, newSync: bool, singletics: bool, localplayer: nat)
      requires ticdup >= 1 && localplayer < NET_MAXPLAYERS
      ensures Valid() && built == [] && ran == []
    {
      this.ticdup, this.newSync, this.singletics, this.localplayer := ticdup, newSync, singletics, localplayer;
      var empty := TicSet(seq(NET_MAXPLAYERS, i => IDLE), seq(NET_MAXPLAYERS, i => false));
      ticdata := new TicSet[BACKUPTICS](i => empty);
      maketic, gametic, skiptics, lasttime, oldentertics := 0, 0, 0, 0, 0;
      localPlayerInGame := empty.ingame;
      built, ran, consumed := [], [], 0;
    }

    /** How many commands may wait in the ring. */
    function Lead(): nat {
      if newSync then 3 else 5
    }

    ghost predicate Ring()
      reads this`built, this`consumed, ticdata
    {
      && ticdup >= 1 && localplayer < NET_MAXPLAYERS && ticdata.Length == BACKUPTICS
      && consumed <= |built| <= consumed + Lead()
      && (forall k | 0 <= k < BACKUPTICS :: OthersIdle(localplayer, ticdata[k]))
      && (forall j | consumed <= j < |built| :: ticdata[j % BACKUPTICS] == Own(localplayer, built[j]))
    }

    /** What holds between any two calls: waiting commands are intact in the ring, and what has
        been run is exactly the commands built so far, in order, each `ticdup` times. */
    ghost predicate Valid()
      reads this, ticdata
    {
      && Ring()
      && maketic == |built| && gametic == consumed * ticdup && skiptics >= 0
      && ran == Runs(localplayer, built[..consumed], ticdup)
    }

    lemma TicsRun()
      requires Valid()
      ensures ticdup >= 1 && gametic / ticdup == consumed
    {
      Quotient(consumed, gametic, ticdup);
    }

    /** Returns whether a command was built. */
    method BuildNewTic() returns (more: bool)
      requires Valid()
      modifies this, ticdata
      ensures Valid() && unchanged(`gametic, `consumed, `ran, `skiptics, `lasttime, `oldentertics)
      ensures more <==> old(maketic) < gametic / ticdup + Lead()
      ensures old(built) <= built && |built| == |old(built)| + if more then 1 else 0
      ensures consumed < |built|
    {
      TicsRun();
      var gameticdiv := gametic / ticdup;
      if newSync {
        if maketic - gameticdiv > 2 {
          return false;
        }
        if maketic - gameticdiv > 8 {
          return false;
        }
      } else {
        if maketic - gameticdiv >= 5 {
          return false;
        }
      }
      var cmd: TicCmd := *;  // BuildTiccmd: whatever the player does
      PutCommand(cmd);
      return true;
    }

    method PutCommand(cmd: TicCmd)
      requires Valid() && maketic < consumed + Lead()
      modifies this`maketic, this`built, ticdata
      ensures Valid() && built == old(built) + [cmd]
    {
      var slot := maketic % BACKUPTICS;
      forall j | consumed <= j < |built| ensures j % BACKUPTICS != slot {
        SlotsDiffer(j, maketic);
      }
      OwnUnique(localplayer, ticdata[slot], cmd);
      ticdata[slot] := ticdata[slot].(cmds := ticdata[slot].cmds[localplayer := cmd]);
      ticdata[slot] := ticdata[slot].(ingame := ticdata[slot].ingame[localplayer := true]);
      maketic := maketic + 1;
      built := built + [cmd];
      assert built[..consumed] == old(built)[..consumed];
    }

    /** Builds the commands that fell due since the last call, less those to be skipped, as far as
        there is room. */
    method NetUpdate()
      requires Valid()
      modifies this, ticdata
      ensures Valid() && unchanged(`gametic, `consumed, `ran, `oldentertics)
      ensures old(built) <= built
      ensures singletics ==> unchanged(`built, `skiptics, `lasttime)
      ensures !singletics ==>
        && skiptics == Max(0, old(skiptics) - (lasttime - old(lasttime)))
        && |built| == Min(|old(built)| + Max(0, lasttime - old(lasttime) - old(skiptics)),
                          consumed + (if newSync then 3 else 5))
    {
      if singletics {
        return;
      }
      var nowtime: int := *;  // the clock, divided by ticdup
      var newtics := nowtime - lasttime;
      lasttime := nowtime;
      if skiptics <= newtics {
        newtics := newtics - skiptics;
        skiptics := 0;
      } else {
        skiptics := skiptics - newtics;
        newtics := 0;
      }
      TicsRun();
      var i := 0;
      while i < newtics
        invariant 0 <= i <= newtics && Valid() && old(built) <= built
        invariant unchanged(`gametic, `consumed, `ran, `oldentertics)
        invariant lasttime == nowtime && skiptics == Max(0, old(skiptics) - (nowtime - old(lasttime)))
        invariant |built| == |old(built)| + i
      {
        var more := BuildNewTic();
        if !more {
          break;
        }
        i := i + 1;
      }
    }

    function GetLowTic(): int
      reads this
    {
      maketic
    }

    /** The inner loop of TryRunTics: one set, `ticdup` times. */
    method RunSet(slot: nat, lowtic: int, ghost cmd: TicCmd)
      requires ticdup >= 1 && gametic == consumed * ticdup && consumed < lowtic
      requires slot < ticdata.Length && localplayer < NET_MAXPLAYERS && ticdata[slot] == Own(localplayer, cmd)
      modifies this`gametic, this`ran, this`localPlayerInGame, ticdata
      ensures gametic == old(gametic) + ticdup
      ensures ran == old(ran) + Repeat(localplayer, cmd, ticdup)
      ensures ticdata[slot] == Own(localplayer, Squashed(cmd))
      ensures forall k | 0 <= k < ticdata.Length && k != slot :: ticdata[k] == old(ticdata[k])
    {
      hide Squashed;
      SquashOwn(localplayer, cmd);
      SquashOwn(localplayer, Squashed(cmd));
      RepeatsAreHarmless(cmd);
      for i := 0 to ticdup
        invariant gametic == consumed * ticdup + i
        invariant ran == old(ran) + Repeat(localplayer, cmd, i)
        invariant ticdata[slot] == Own(localplayer, if i == 0 then cmd else Squashed(cmd))
        invariant forall k | 0 <= k < ticdata.Length && k != slot :: ticdata[k] == old(ticdata[k])
      {
        Quotient(consumed, gametic, ticdup);
        if gametic / ticdup > lowtic {
          assert false;  // I_Error("gametic>lowtic")
        }
        localPlayerInGame := ticdata[slot].ingame;
        ran := ran + [ticdata[slot]];  // RunTic
        gametic := gametic + 1;
        TicdupSquash(ticdata, slot);
      }
    }

    /** Runs the oldest waiting command. */
    method RunCommand(lowtic: int)
      requires Valid() && consumed < lowtic <= maketic
      modifies this`gametic, this`ran, this`consumed, this`localPlayerInGame, ticdata
      ensures Valid() && consumed == old(consumed) + 1
    {
      hide Runs, Squashed, Repeat;
      TicsRun();
      var slot := gametic / ticdup % BACKUPTICS;
      ghost var cmd, n := built[consumed], consumed;
      SinglePlayerClear(ticdata, slot, localplayer);
      assert ticdata[slot].ingame == Own(localplayer, cmd).ingame;
      RunSet(slot, lowtic, cmd);
      OneMore(n, ticdup);
      RunsStep(localplayer, built, ticdup, n);
      consumed := consumed + 1;
      forall j | consumed <= j < |built| ensures ticdata[j % BACKUPTICS] == Own(localplayer, built[j]) {
        SlotsDiffer(n, j);
      }
    }

    /** How many commands to run when `available` are there: all of them with new sync; otherwise one more
        than the clock asks for as long as that leaves some over, as many as it asks for when that leaves
        one, and all of them when it asks for more. At least one, in any case. */
    ghost predicate Decided(n: int, realtics: int, available: int) {
      && (available < 1 ==> n == 1)
      && (newSync && available >= 1 ==> n == available)
      && (!newSync && available >= 1 ==>
            && (realtics >= available ==> n == available)
            && (realtics == available - 1 ==> n == Max(realtics, 1))
            && (0 <= realtics < available - 1 ==> n == realtics + 1)
            && (realtics < 0 ==> n == 1))
    }

    method DecideCounts(realtics: int, availabletics: int) returns (counts: int)
      ensures Decided(counts, realtics, availabletics)
      ensures counts >= 1 && (availabletics >= 1 ==> counts <= availabletics)
    {
      if newSync {
        counts := availabletics;
      } else {
        if realtics < availabletics - 1 {
          counts := realtics + 1;
        } else if realtics < availabletics {
          counts := realtics;
        } else {
          counts := availabletics;
        }
        if counts < 1 {
          counts := 1;
        }
      }
      if counts < 1 {
        counts := 1;
      }
    }

    /** Waits until `counts` commands are there, or the clock has moved on from `entertic`. */
    method WaitForTics(counts: int, entertic: int) returns (lowtic: int, timedOut: bool)
      requires Valid() && counts >= 1
      modifies this, ticdata
      ensures Valid() && old(built) <= built && unchanged(`ran, `consumed, `gametic, `oldentertics)
      ensures !timedOut ==> consumed + counts <= lowtic == maketic
      ensures timedOut ==> clock > entertic
      ensures old(maketic) >= consumed + counts ==> !timedOut && built == old(built)
    {
      hide Ring, Runs;
      TicsRun();
      lowtic := GetLowTic();
      var polls: nat := *;  // readings until the clock has moved on for certain
      while lowtic < gametic / ticdup + counts
        invariant Valid() && old(built) <= built && unchanged(`ran, `consumed, `gametic, `oldentertics)
        invariant lowtic == maketic && (built == old(built) || old(maketic) < consumed + counts)
        decreases polls
      {
        NetUpdate();
        lowtic := GetLowTic();
        Waiting();
        TicsRun();
        if lowtic < gametic / ticdup {
          assert false;  // I_Error("TryRunTics: lowtic < gametic")
        }
        var now: int :| polls > 0 || now - entertic > 0;
        clock := now;
        if now - entertic > 0 {
          return lowtic, true;
        }
        polls := polls - 1;
      }
      TicsRun();
      timedOut := false;
    }

    lemma Waiting()
      requires Valid()
      ensures consumed <= maketic <= consumed + Lead()
    {
    }

    /** One turn of the main loop. `available` is the number of commands waiting when it decides how
        many to run. It runs exactly that many, unless none is waiting and the clock moves on before
        one is there; then it gives up, having run nothing. */
    method TryRunTics() returns (timedOut: bool, ghost available: int)
      requires Valid()
      modifies this, ticdata
      ensures Valid() && old(built) <= built
      ensures |old(built)| - old(consumed) <= available <= Max(|old(built)| - old(consumed), if newSync then 3 else 5)
      ensures !timedOut && available < 1 ==> consumed == old(consumed) + 1
      ensures !timedOut && newSync && available >= 1 ==> consumed == old(consumed) + available
      ensures var n, realtics := consumed - old(consumed), oldentertics - old(oldentertics);
              !timedOut && !newSync && available >= 1 ==>
                && (realtics >= available ==> n == available)
                && (realtics == available - 1 ==> n == Max(realtics, 1))
                && (0 <= realtics < available - 1 ==> n == realtics + 1)
                && (realtics < 0 ==> n == 1)
      ensures timedOut ==> ran == old(ran) && consumed == old(consumed) && available <= 0 && clock > oldentertics
      ensures singletics && old(maketic) == old(consumed) ==> available == 1 && |built| == |old(built)| + 1
    {
      hide Ring, Runs;
      Waiting();
      var entertic: int := *;  // the clock, divided by ticdup
      var realtics := entertic - oldentertics;
      oldentertics := entertic;
      if singletics {
        var _ := BuildNewTic();
      } else {
        NetUpdate();
      }
      Waiting();
      TicsRun();
      var lowtic := GetLowTic();
      var availabletics := lowtic - gametic / ticdup;
      available := availabletics;
      var counts := DecideCounts(realtics, availabletics);
      lowtic, timedOut := WaitForTics(counts, entertic);
      if timedOut {
        return;
      }
      ghost var target, built1 := consumed + counts, built;
      while counts > 0
        invariant counts >= 0 && consumed + counts == target && oldentertics == entertic
        invariant Valid() && built1 <= built && (singletics ==> built == built1)
        invariant consumed + counts <= lowtic <= maketic
        decreases counts
      {
        counts := counts - 1;
        RunCommand(lowtic);
        NetUpdate();
      }
    }

    /** A waiting command is always run; with singletics, a command is always run. */
    method RunsSomething() returns (timedOut: bool)
      requires Valid() && (singletics || consumed < |built|)
      modifies this, ticdata
      ensures Valid() && !timedOut && consumed > old(consumed)
    {
      hide Ring, Runs;
      Waiting();
      ghost var available;
      timedOut, available := TryRunTics();
    }

    /** Any schedule of the two entry points, under any clock. */
    method Play(turns: nat)
      requires Valid()
      modifies this, ticdata
      ensures Valid() && old(built) <= built && old(consumed) <= consumed
    {
      for t := 0 to turns
        invariant Valid() && old(built) <= built && old(consumed) <= consumed
      {
        var drawing: bool := *;
        if drawing {
          NetUpdate();
        } else {
          var _, _ := TryRunTics();
        }
      }
    }

    /** What Valid means for a single tic that has been run. */
    lemma TicOf(k: nat)
      requires Valid() && k < gametic
      ensures |ran| == gametic && k / ticdup < |built|
      ensures ran[k] == Own(localplayer, if k % ticdup == 0 then built[k / ticdup] else Squashed(built[k / ticdup]))
      ensures gametic / ticdup <= maketic <= gametic / ticdup + (if newSync then 3 else 5)
    {
      TicsRun();
      Waiting();
      RunList();
      hide Valid, Ring, Runs, Own, Squashed;
      OneRun(localplayer, built, consumed, ticdup, k);
    }

    lemma RunList()
      requires Valid()
      ensures ran == Runs(localplayer, built[..consumed], ticdup) && gametic == consumed * ticdup
      ensures consumed <= |built| == maketic
    {
    }

    /** And field by field: only the local player is in the game; it moves as the command says in every run,
        and chats and acts as it says in the first. */
    lemma TicMeans(k: nat)
      requires Valid() && k < gametic
      ensures |ran| == gametic && k / ticdup < |built| && localplayer < 8
      ensures |ran[k].ingame| == |ran[k].cmds| == 8 && forall i | 0 <= i < 8 :: ran[k].ingame[i] <==> i == localplayer
      ensures var it, cmd := ran[k].cmds[localplayer], built[k / ticdup];
              && it.forwardmove == cmd.forwardmove && it.sidemove == cmd.sidemove && it.angleturn == cmd.angleturn
              && if k % ticdup == 0 then it == cmd else it.chatchar == 0 && it.buttons & 128 == 0
    {
      TicOf(k);
      TicsRun();
      hide Runs, Own, Squashed;
      var cmd := built[k / ticdup];
      OwnIs(localplayer, cmd);
      OwnIs(localplayer, Squashed(cmd));
      RepeatsAreHarmless(cmd);
    }
  }
}
