/**
 The history of accepted commands, the sequences that the driver's operations send, and
 the states that a card goes through under them.
 */
module SdMmcScripts {
  import opened Bytes
  import opened Options
  import opened SdMmcCommands

  // ---------- The command history ----------

  /** The command `k` places from the end of the log. */
  function FromEnd(log: seq<Sent>, k: nat): Option<Command>
  {
    if k < |log| then Some(log[|log| - 1 - k].cmd) else None
  }

  /** SEND_STATUS repeated. */
  function Polls(rca: word, n: nat): (ps: seq<Sent>)
    ensures |ps| == n
  {
    seq(n, _ => Sent(SendStatus, RcaArg(rca)))
  }

  /** The commands of a log other than the status polls. */
  function Commands(log: seq<Sent>): seq<Sent>
  {
    if log == [] then []
    else
      var n := |log| - 1;
      if log[n].cmd == SendStatus then Commands(log[..n]) else Commands(log[..n]) + [log[n]]
  }

  lemma {:induction false} CommandsAppend(a: seq<Sent>, b: seq<Sent>)
    ensures Commands(a + b) == Commands(a) + Commands(b)
  {
    if b == [] {
      assert a + b == a;
    } else {
      var n := |b| - 1;
      CommandsAppend(a, b[..n]);
      assert (a + b)[..|a + b| - 1] == a + b[..n] && (a + b)[|a + b| - 1] == b[n];
    }
  }

  lemma {:induction false} CommandsOfPolls(rca: word, n: nat)
    ensures Commands(Polls(rca, n)) == []
  {
    if n > 0 {
      CommandsOfPolls(rca, n - 1);
      assert Polls(rca, n)[..n - 1] == Polls(rca, n - 1);
    }
  }

  lemma {:induction false} CommandsOfOne(sent: Sent)
    requires sent.cmd != SendStatus
    ensures Commands([sent]) == [sent]
  {
    assert [sent][..0] == [];
  }

  /** The commands accepted since the log was `before`. */
  function NewCommands(before: seq<Sent>, log: seq<Sent>): seq<Sent>
    requires before <= log
  {
    Commands(log[|before|..])
  }

  lemma {:induction false} NewCommandsCompose(a: seq<Sent>, b: seq<Sent>, c: seq<Sent>)
    requires a <= b <= c
    ensures a <= c && NewCommands(a, c) == NewCommands(a, b) + NewCommands(b, c)
  {
    assert c[|a|..] == b[|a|..] + c[|b|..];
    CommandsAppend(b[|a|..], c[|b|..]);
  }

  /** A command, perhaps a stop, and polls. */
  lemma {:induction false} NewCommandsOf(log: seq<Sent>, sent: seq<Sent>, rca: word, polls: nat)
    ensures var after := log + sent + Polls(rca, polls);
            log <= after && NewCommands(log, after) == Commands(sent)
  {
    var after := log + sent + Polls(rca, polls);
    assert after[|log|..] == sent + Polls(rca, polls);
    CommandsAppend(sent, Polls(rca, polls));
    CommandsOfPolls(rca, polls);
  }

  /** What a partition switch sends: the configuration byte with only its low three bits changed, and a check. */
  function SwitchScript(config: byte, partition: byte, rca: word): seq<Sent>
    requires partition < 8
  {
    [Sent(SwitchMmc, SwitchArg(EXT_CSD_PARTITION_CONFIG, WithAccess(config, partition))), Sent(SendExtCsdMmc, RcaArg(rca))]
  }

  lemma {:induction false} SwitchScriptIs(config: byte, partition: byte, rca: word)
    requires partition < 8
    ensures SwitchScript(config, partition, rca) ==
            [Sent(SwitchMmc, SwitchArg(EXT_CSD_PARTITION_CONFIG, WithAccess(config, partition))), Sent(SendExtCsdMmc, RcaArg(rca))]
  {
  }

  function Repeated(sent: Sent, n: nat): (r: seq<Sent>)
    ensures |r| == n
  {
    seq(n, _ => sent)
  }

  /** Polling an SD card's power-up with the voltage window it reported. */
  function PowerUpScript(arg: word, n: nat): seq<Sent>
  {
    [Sent(AppSendOpCondSd, 0)] + Repeated(Sent(AppSendOpCondSd, arg), n)
  }

  lemma {:induction false} PowerUpFirst(arg: word)
    ensures PowerUpScript(arg, 0) == [Sent(AppSendOpCondSd, 0)]
  {
  }

  lemma {:induction false} PowerUpNext(arg: word, n: nat)
    ensures PowerUpScript(arg, n + 1) == PowerUpScript(arg, n) + [Sent(AppSendOpCondSd, arg)]
  {
  }

  /** The identification of an SD card behind its power-up. */
  function SdScript(rca: word): seq<Sent>
  {
    [Sent(SendCidAll, 0), Sent(SendRelativeAddr, 0), Sent(SendCid, RcaArg(rca)), Sent(SendCsd, RcaArg(rca)),
     Sent(Select, RcaArg(rca)), Sent(AppSetBusWidthSd, 2)]
  }

  const MMC_RCA: word := 0xCCCC

  function PowerClassScript(powerClass: Option<byte>, rca: word): seq<Sent>
  {
    if powerClass.Some?
    then [Sent(SwitchMmc, SwitchArg(EXT_CSD_POWER_CLASS, powerClass.value)), Sent(SendExtCsdMmc, RcaArg(rca))] else []
  }

  /** The switch to a wider bus, with the power class it needs, if it needs another. */
  function BusWidthScript(powerClass: Option<byte>, rca: word): seq<Sent>
  {
    [Sent(SendExtCsdMmc, RcaArg(rca))] + PowerClassScript(powerClass, rca) + [Sent(SwitchMmc, SwitchArg(EXT_CSD_BUS_WIDTH, 2))]
  }

  /** The identification of an MMC card: an address is assigned, high speed and the 8-bit bus are switched on. */
  function MmcScript(powerClass: Option<byte>): seq<Sent>
  {
    [Sent(SendCidAll, 0), Sent(SendRelativeAddr, RcaArg(MMC_RCA)), Sent(SendCid, RcaArg(MMC_RCA)), Sent(SendCsd, RcaArg(MMC_RCA)),
     Sent(Select, RcaArg(MMC_RCA)), Sent(SendExtCsdMmc, RcaArg(MMC_RCA)),
     Sent(SwitchMmc, SwitchArg(EXT_CSD_HS_TIMING, 1)), Sent(SendExtCsdMmc, RcaArg(MMC_RCA))]
    + BusWidthScript(powerClass, MMC_RCA)
  }

  lemma {:induction false} MmcScriptIs(powerClass: Option<byte>)
    ensures MmcScript(powerClass) ==
            [Sent(SendCidAll, 0), Sent(SendRelativeAddr, RcaArg(MMC_RCA)), Sent(SendCid, RcaArg(MMC_RCA)), Sent(SendCsd, RcaArg(MMC_RCA))]
            + [Sent(Select, RcaArg(MMC_RCA)), Sent(SendExtCsdMmc, RcaArg(MMC_RCA)),
               Sent(SwitchMmc, SwitchArg(EXT_CSD_HS_TIMING, 1)), Sent(SendExtCsdMmc, RcaArg(MMC_RCA))]
            + BusWidthScript(powerClass, MMC_RCA)
  {
  }

  datatype RpmbRequestType = ProgramKey | ReadCounter | AuthenticatedWrite | AuthenticatedRead

  /** A multi-block transfer with its block count set. */
  function Counted(cmd: Command, packets: nat, reliable: bool): seq<Sent>
  {
    [Sent(SetBlockCount, BlockCountArg(packets, reliable)), Sent(cmd, 0)]
  }

  function ReadScript(packets: nat): seq<Sent>
  {
    Counted(WriteMultiBlock, 1, false) + Counted(ReadMultiBlock, packets, false)
  }

  /** What each RPMB request sends. */
  function RpmbScript(request: RpmbRequestType, requestPackets: nat, responsePackets: nat): seq<Sent>
  {
    match request
    case ProgramKey => Counted(WriteMultiBlock, 1, true) + ReadScript(1)
    case ReadCounter => ReadScript(1)
    case AuthenticatedWrite => Counted(WriteMultiBlock, requestPackets, true) + ReadScript(1)
    case AuthenticatedRead => ReadScript(responsePackets)
  }

  /** No RPMB request stops a transmission. */
  lemma {:induction false} RpmbNeverStops(request: RpmbRequestType, requestPackets: nat, responsePackets: nat)
    ensures forall s :: s in RpmbScript(request, requestPackets, responsePackets) ==> s.cmd != StopTransmission
  {
  }


  // ---------- The scripts and the card's states ----------

  /** The states of a card that is being identified and used (SD Physical Layer Specification, section 4.8; JEDEC Standard No. 84-A441). */
  datatype CardState = Ready | Identification | StandBy | Transfer(counted: bool) | Moving

  /**
   The state after a command is carried out, None if the command is not legal. A
   multi-block transfer ends by itself when its count was set, else it goes on.
   */
  function After(s: CardState, cmd: Command): Option<CardState>
  {
    match s
    case Ready => if cmd == SendCidAll then Some(Identification) else None
    case Identification => if cmd == SendRelativeAddr then Some(StandBy) else None
    case StandBy =>
      if cmd == SendCid || cmd == SendCsd then Some(StandBy) else if cmd == Select then Some(Transfer(false)) else None
    case Transfer(counted) =>
      if cmd == SetBlockCount then Some(Transfer(true))
      else if cmd.IsMultiBlock() then Some(if counted then Transfer(false) else Moving)
      else if cmd == SwitchMmc || cmd == SendExtCsdMmc || cmd == AppSetBusWidthSd || cmd == SetBlockLength then Some(Transfer(false))
      else None
    case Moving => if cmd == StopTransmission then Some(Transfer(false)) else None
  }

  function Run(s: CardState, log: seq<Sent>): Option<CardState>
    decreases log
  {
    if log == [] then Some(s)
    else
      match After(s, log[0].cmd)
      case None => None
      case Some(next) => Run(next, log[1..])
  }

  lemma {:induction false} RunAppend(s: CardState, a: seq<Sent>, b: seq<Sent>)
    ensures Run(s, a + b) == if Run(s, a).Some? then Run(Run(s, a).value, b) else None
    decreases a
  {
    if a == [] {
      assert a + b == b;
    } else {
      assert (a + b)[0] == a[0] && (a + b)[1..] == a[1..] + b;
      var next := After(s, a[0].cmd);
      if next.Some? {
        RunAppend(next.value, a[1..], b);
      }
    }
  }

  lemma {:induction false} RunOne(s: CardState, x: Sent)
    ensures Run(s, [x]) == After(s, x.cmd)
  {
    assert [x][1..] == [];
  }

  lemma {:induction false} RunTwo(s: CardState, x: Sent, y: Sent)
    ensures Run(s, [x, y]) == if After(s, x.cmd).Some? then After(After(s, x.cmd).value, y.cmd) else None
  {
    assert [x, y] == [x] + [y];
    RunAppend(s, [x], [y]);
    RunOne(s, x);
    if After(s, x.cmd).Some? {
      RunOne(After(s, x.cmd).value, y);
    }
  }

  /** Both identification scripts are legal from a powered-up card on, and end with the card in the transfer state. */
  lemma {:induction false} IdentificationLegal(rca: word, powerClass: Option<byte>)
    ensures Run(Ready, SdScript(rca)) == Some(Transfer(false))
    ensures Run(Ready, MmcScript(powerClass)) == Some(Transfer(false))
  {
    hide RcaArg, SwitchArg, Run;
    RegistersLegal(0, rca);
    RunTwo(StandBy, Sent(Select, RcaArg(rca)), Sent(AppSetBusWidthSd, 2));
    var head := [Sent(SendCidAll, 0), Sent(SendRelativeAddr, 0)] + [Sent(SendCid, RcaArg(rca)), Sent(SendCsd, RcaArg(rca))];
    RunAppend(Ready, head, [Sent(Select, RcaArg(rca)), Sent(AppSetBusWidthSd, 2)]);
    assert SdScript(rca) == head + [Sent(Select, RcaArg(rca)), Sent(AppSetBusWidthSd, 2)];
    MmcLegal(powerClass);
  }

  lemma {:induction false} RegistersLegal(arg: word, rca: word)
    ensures Run(Ready, [Sent(SendCidAll, 0), Sent(SendRelativeAddr, arg)] + [Sent(SendCid, RcaArg(rca)), Sent(SendCsd, RcaArg(rca))])
            == Some(StandBy)
  {
    hide RcaArg, Run;
    RunTwo(Ready, Sent(SendCidAll, 0), Sent(SendRelativeAddr, arg));
    RunTwo(StandBy, Sent(SendCid, RcaArg(rca)), Sent(SendCsd, RcaArg(rca)));
    RunAppend(Ready, [Sent(SendCidAll, 0), Sent(SendRelativeAddr, arg)], [Sent(SendCid, RcaArg(rca)), Sent(SendCsd, RcaArg(rca))]);
  }

  lemma {:induction false} MmcLegal(powerClass: Option<byte>)
    ensures Run(Ready, MmcScript(powerClass)) == Some(Transfer(false))
  {
    hide RcaArg, SwitchArg, Run, BusWidthScript, MmcScript;
    var arg, rca := RcaArg(MMC_RCA), MMC_RCA;
    RegistersLegal(arg, rca);
    var head := [Sent(SendCidAll, 0), Sent(SendRelativeAddr, arg)] + [Sent(SendCid, arg), Sent(SendCsd, arg)];
    var a := [Sent(Select, arg), Sent(SendExtCsdMmc, arg)];
    var b := [Sent(SwitchMmc, SwitchArg(EXT_CSD_HS_TIMING, 1)), Sent(SendExtCsdMmc, arg)];
    RunTwo(StandBy, a[0], a[1]);
    RunTwo(Transfer(false), b[0], b[1]);
    RunAppend(Ready, head, a);
    RunAppend(Ready, head + a, b);
    BusWidthLegal(powerClass, rca);
    RunAppend(Ready, head + a + b, BusWidthScript(powerClass, rca));
    MmcScriptIs(powerClass);
    assert MmcScript(powerClass) == head + a + b + BusWidthScript(powerClass, rca);
  }

  lemma {:induction false} BusWidthLegal(powerClass: Option<byte>, rca: word)
    ensures Run(Transfer(false), BusWidthScript(powerClass, rca)) == Some(Transfer(false))
  {
    hide RcaArg, SwitchArg, Run;
    var s := Transfer(false);
    var a, b, c := [Sent(SendExtCsdMmc, RcaArg(rca))], PowerClassScript(powerClass, rca), [Sent(SwitchMmc, SwitchArg(EXT_CSD_BUS_WIDTH, 2))];
    RunOne(s, a[0]);
    RunOne(s, c[0]);
    if powerClass.Some? {
      RunTwo(s, b[0], b[1]);
    } else {
      RunNone(s);
    }
    RunAppend(s, a, b);
    RunAppend(s, a + b, c);
  }

  lemma {:induction false} RunNone(s: CardState)
    ensures Run(s, []) == Some(s)
  {
  }

  /** An RPMB request and both partition switches are legal, and no transfer of theirs is left going on. */
  lemma {:induction false} RpmbLegal(request: RpmbRequestType, requestPackets: nat, responsePackets: nat, config: byte, partition: byte, rca: word)
    requires partition < 8
    ensures Run(Transfer(false), RpmbScript(request, requestPackets, responsePackets)) == Some(Transfer(false))
    ensures Run(Transfer(false), SwitchScript(config, partition, rca)) == Some(Transfer(false))
  {
    hide RcaArg, SwitchArg, BlockCountArg, Run, Counted, ReadScript;
    var s := Transfer(false);
    SwitchScriptIs(config, partition, rca);
    var script := SwitchScript(config, partition, rca);
    RunTwo(s, script[0], script[1]);
    ReadLegal(1);
    ReadLegal(responsePackets);
    CountedLegal(WriteMultiBlock, 1, true);
    CountedLegal(WriteMultiBlock, requestPackets, true);
    RunAppend(s, Counted(WriteMultiBlock, 1, true), ReadScript(1));
    RunAppend(s, Counted(WriteMultiBlock, requestPackets, true), ReadScript(1));
  }

  lemma {:induction false} ReadLegal(packets: nat)
    ensures Run(Transfer(false), ReadScript(packets)) == Some(Transfer(false))
  {
    hide Run, Counted;
    CountedLegal(WriteMultiBlock, 1, false);
    CountedLegal(ReadMultiBlock, packets, false);
    RunAppend(Transfer(false), Counted(WriteMultiBlock, 1, false), Counted(ReadMultiBlock, packets, false));
  }

  lemma {:induction false} CountedLegal(cmd: Command, packets: nat, reliable: bool)
    requires cmd.IsMultiBlock()
    ensures Run(Transfer(false), Counted(cmd, packets, reliable)) == Some(Transfer(false))
  {
    hide BlockCountArg, Run;
    RunTwo(Transfer(false), Sent(SetBlockCount, BlockCountArg(packets, reliable)), Sent(cmd, 0));
  }
}
