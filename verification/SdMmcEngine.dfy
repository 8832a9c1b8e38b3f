/**
 The command engine of one SD/eMMC host controller: sending commands to a card that
 may answer anything, recovering from errors by resetting and initialising it again,
 and publishing its protocols.
 */
module SdMmcEngine {
  import opened Bytes
  import opened Options
  import opened SdMmcCommands
  import opened SdMmcHost
  import opened SdMmcScripts
  import opened SdMmcTally

  /** One instance of the driver. */
  class SdhcInstance {
    const handle: nat
    const database: ProtocolDatabase
    const host: HostController
    var info: CardInfo
    var media: Media
    var slotInitialized: bool
    var blockIoInstalled: bool
    var devicePathInstalled: bool
    var rpmbInstalled: bool
    var currentPartition: byte
    var response: word
    var preLast: Option<Command>
    var last: Option<Command>
    var attempts: nat

    /** The commands the card has accepted, in order, and what it answered. */
    ghost var log: seq<Sent>
    ghost var replies: seq<word>

    /** How many recoveries, and how many soft resets, have been started. */
    ghost var recoveries: nat
    ghost var softResets: nat

    /** The highest value the count of nested recoveries has ever had. */
    ghost var deepest: nat

    /** A zero-allocated instance with nothing published. */
    constructor (handle: nat, database: ProtocolDatabase, host: HostController)
      requires OneRpmb(database.installed) && forall p :: (handle, p) !in database.installed
      ensures Valid() && attempts == 0 && log == [] && this.handle == handle && this.database == database && this.host == host
    {
      this.handle, this.database, this.host := handle, database, host;
      info, media, slotInitialized := NO_CARD, Media(false, 0, false, false, 0, 0), false;
      blockIoInstalled, devicePathInstalled, rpmbInstalled := false, false, false;
      currentPartition, response, preLast, last, attempts := 0, 0, None, None, 0;
      log, replies, recoveries, softResets, deepest := [], [], 0, 0, 0;
    }

    /** The bookkeeping invariants. */
    ghost predicate Valid()
      reads `log, `replies, `last, `preLast, `deepest, `blockIoInstalled, `devicePathInstalled, `rpmbInstalled, `currentPartition, `slotInitialized, database
    {
      && |replies| == |log|
      && last == FromEnd(log, 0) && preLast == FromEnd(log, 1)
      && (blockIoInstalled <==> (handle, BlockIo) in database.installed)
      && (devicePathInstalled <==> (handle, DevicePath) in database.installed)
      && (rpmbInstalled <==> (handle, RpmbIo) in database.installed)
      && OneRpmb(database.installed)
      && currentPartition < 8
      && (slotInitialized ==> log != [])
      && deepest <= RECOVERY_THRESHOLD + 1
    }

    ghost function Now(): Tally
      reads `log, `recoveries, `softResets, `media, `blockIoInstalled, `devicePathInstalled, `rpmbInstalled, database
      reads host`trouble, host`tried, host`lineResets, host`settings, host`presence, host`protection
    {
      Tally(log, Elsewhere(database.installed, handle),
            host.trouble, database.refusals, recoveries, softResets,
            host.tried, host.lineResets, host.settings, host.presence, host.protection,
            Standing(Flags(), media.present, media.readOnly))
    }

    lemma NowShows()
      ensures Now().log == log && Now().tried == host.tried && Now().trouble == host.trouble && Now().refusals == database.refusals
      ensures Now().recoveries == recoveries && Now().softResets == softResets
      ensures Now().lineResets == host.lineResets && Now().settings == host.settings
      ensures Now().presence == host.presence && Now().protection == host.protection
      ensures Now().standing == Standing(Flags(), media.present, media.readOnly)
    {
    }

    lemma RepliesMatch()
      requires Valid()
      ensures |replies| == |log|
    {
    }

    ghost function Face(): Surface
      reads `log, `recoveries, `softResets, `media, `blockIoInstalled, `devicePathInstalled, `rpmbInstalled, database
      reads `slotInitialized, `currentPartition, host
    {
      Surface(media, slotInitialized, database.installed, currentPartition, host.moved, Now().(log := [], tried := []))
    }

    lemma FaceShows()
      ensures Face().media == media && Face().slotInitialized == slotInitialized && Face().installed == database.installed
      ensures Face().partition == currentPartition && Face().moved == host.moved
      ensures Face().tally == Now().(log := [], tried := []) && Face().tally.settings == host.settings
      ensures Face().tally.recoveries == recoveries && Face().tally.trouble == host.trouble
    {
    }

    ghost function Card(): Record
      reads `info, `media, `slotInitialized, `currentPartition
    {
      Record(info, media, slotInitialized, currentPartition)
    }

    function Flags(): Published
      reads `blockIoInstalled, `devicePathInstalled, `rpmbInstalled
    {
      Published(blockIoInstalled, devicePathInstalled, rpmbInstalled)
    }

    /** What the log has since position `from`; an instance that is not Valid has nothing. */
    ghost predicate Answered(from: nat, cmd: Command)
      reads `log, `replies
    {
      |log| == |replies| && Heard(log, replies, from, cmd)
    }

    // ---------- Sending ----------

    /** One exchange with the card; the host controller may fail at any point and the response is arbitrary. */
    method SendCommandHelper(cmd: Command, arg: word) returns (status: Status)
      requires Valid()
      modifies this`response, this`last, this`preLast, this`log, this`replies, host`tried, host`trouble
      ensures Valid() && Since(old(Now()), Now()) && Unreset(old(Now()), Now())
      ensures status == Success ==> Face() == old(Face())
      ensures status != Success ==> if cmd.IsProbe() then Silent(old(Now()), Now()) else Faulted(old(Now()), Now())
      ensures status == Success ==> log == old(log) + [Sent(cmd, arg)] && replies == old(replies) + [response]
      ensures status != Success ==> log == old(log) && replies == old(replies)
      ensures status == Success && cmd.AnswersStatus() ==> !IsCardStatusError(info.function_, response)
      ensures |host.tried| > |old(host.tried)|
      ensures !cmd.IsApp() ==> host.tried == old(host.tried) + [Sent(cmd, arg)]
      ensures cmd.IsApp() && status == Success ==> host.tried == old(host.tried) + [Sent(AppSd, RcaArg(info.rca)), Sent(cmd, arg)]
    {
      hide Valid, Elsewhere, IsCardStatusError, Since, Now, Face, RcaArg, Command.AnswersStatus, Command.IsApp, Command.IsProbe;
      ghost var given;
      NowShows();
      status, given := Trade(cmd, arg);
      if status == Success {
        NoteSuccess(cmd, arg);
      }
      NowShows();
      SinceSent(old(Now()), Now(), given, if status == Success then [Sent(cmd, arg)] else []);
    }

    /** A command and its response; an error bit in a status is a failure. */
    method Trade(cmd: Command, arg: word) returns (status: Status, ghost given: seq<Sent>)
      modifies this`response, host`tried, host`trouble
      ensures status == Success ==> host.trouble == old(host.trouble) && Face() == old(Face())
      ensures Now() == old(Now()).(tried := host.tried, trouble := host.trouble)
      ensures old(host.trouble).faults <= host.trouble.faults && old(host.trouble).silences <= host.trouble.silences
      ensures status != Success ==>
                if cmd.IsProbe() then old(host.trouble).silences < host.trouble.silences
                else old(host.trouble).faults < host.trouble.faults
      ensures host.tried == old(host.tried) + given && given != []
      ensures !cmd.IsApp() ==> given == [Sent(cmd, arg)]
      ensures cmd.IsApp() && status == Success ==> given == [Sent(AppSd, RcaArg(info.rca)), Sent(cmd, arg)]
      ensures status == Success && cmd.AnswersStatus() ==> !IsCardStatusError(info.function_, response)
    {
      hide Elsewhere, IsCardStatusError, Command.AnswersStatus, Command.IsApp, Command.IsProbe;
      status, given := Hand(cmd, arg);
      if status != Success {
        return;
      }
      status, response := host.ReceiveResponse(cmd, info.function_);
      if status == Success && cmd.AnswersStatus() && IsCardStatusError(info.function_, response) {
        return DeviceError, given;
      }
    }

    /** The command to the host controller, behind CMD55 if it is an application command. */
    method Hand(cmd: Command, arg: word) returns (status: Status, ghost given: seq<Sent>)
      modifies host`tried, host`trouble
      ensures host.trouble == old(host.trouble).After(cmd, status == Success)
      ensures host.tried == old(host.tried) + given && given != []
      ensures !cmd.IsApp() ==> given == [Sent(cmd, arg)]
      ensures cmd.IsApp() && status == Success ==> given == [Sent(AppSd, RcaArg(info.rca)), Sent(cmd, arg)]
    {
      given := [];
      if cmd.IsApp() {
        given := [Sent(AppSd, RcaArg(info.rca))];
        // CMD55 goes straight to the host controller
        status := host.SendCommand(AppSd, RcaArg(info.rca));
        if status != Success {
          return;
        }
      }
      given := given + [Sent(cmd, arg)];
      status := host.SendCommand(cmd, arg);
    }

    /** The history of successful commands, two deep in the driver. */
    method NoteSuccess(cmd: Command, ghost arg: word)
      requires Valid()
      modifies this`last, this`preLast, this`log, this`replies
      ensures Valid() && Now() == old(Now()).(log := log) && Face() == old(Face())
      ensures log == old(log) + [Sent(cmd, arg)] && replies == old(replies) + [response]
    {
      hide Elsewhere, OneRpmb;
      preLast := last;
      last := Some(cmd);
      log, replies := log + [Sent(cmd, arg)], replies + [response];
    }

    /**
     SdhcSendCommand: a failed command is followed by a recovery, a SWITCH by a wait. A
     failure has a reason: a fault, the silence of a probed card, or a card that stays busy.
     */
    method SendCommand(cmd: Command, arg: word) returns (status: Status, ghost polls: nat)
      requires Valid() && attempts <= RECOVERY_THRESHOLD
      modifies this, database, host
      ensures Valid() && attempts == old(attempts) && Since(old(Now()), Now())
      ensures status == Success ==> Unreset(old(Now()), Now()) && Face() == old(Face()) && info == old(info)
      ensures status == Success ==> log == old(log) + [Sent(cmd, arg)] + Polls(info.rca, polls)
      ensures status == Success ==> (polls > 0 <==> cmd.IsSwitch())
      ensures status == Success && !cmd.IsSwitch() ==> replies == old(replies) + [response]
      ensures status == Success && !cmd.IsSwitch() && !cmd.IsApp() ==> host.tried == old(host.tried) + [Sent(cmd, arg)]
      ensures status == Success && cmd.AnswersStatus() && !cmd.IsSwitch() ==> !IsCardStatusError(info.function_, response)
      ensures status == Success && cmd.IsSwitch() ==> InTransferState(response)
      ensures status != Success ==>
                if cmd.IsProbe() then Silent(old(Now()), Now())
                else if cmd.IsSwitch() then Blamed(old(Now()), Now()) else Faulted(old(Now()), Now())
      ensures status != Success && !cmd.IsSwitch() && !cmd.IsMultiBlock() && Unreset(old(Now()), Now()) ==>
                log == old(log) && replies == old(replies)
      ensures |host.tried| > |old(host.tried)|
      ensures !cmd.IsApp() ==> old(host.tried) + [Sent(cmd, arg)] <= host.tried
      ensures Unreset(old(Now()), Now()) ==> Card() == old(Card())
      decreases RECOVERY_THRESHOLD + 1 - attempts, if cmd.IsSwitch() then 4 else 1
    {
      hide Valid, Elsewhere, RcaArg, SwitchArg, IsCardStatusError, InTransferState, Later, Recovering, WithReason, Since, Now, Face, Card;
      hide Command.AnswersStatus, Command.IsApp, Command.IsProbe, Command.IsSwitch, Command.IsMultiBlock, Command.MovesData;
      polls := 0;
      NowShows();
      Kinds(cmd);
      status := SendCommandHelper(cmd, arg);
      ghost var mid := Now();
      NowShows();
      if status != Success {
        var ignored := RecoverFromErrors(cmd);
        NowShows();
        SinceRecovery(old(Now()), mid, Now());
        return;
      }
      if cmd.IsSwitch() {
        status, polls := WaitForTranStateAndReadyForData();
        SinceTrans(old(Now()), mid, Now());
        NowShows();
      }
    }

    /** A command of the initialisation sequence, sent for its effect or for the response. */
    method Exchange(cmd: Command, arg: word) returns (status: Status)
      requires Valid() && attempts <= RECOVERY_THRESHOLD && cmd != SendStatus && !cmd.IsMultiBlock()
      modifies this, database, host
      ensures Valid() && attempts == old(attempts) && Since(old(Now()), Now())
      ensures status == Success ==> Unreset(old(Now()), Now())
      ensures status == Success ==> Face() == old(Face()) && info == old(info) && log != []
      ensures status == Success ==> old(log) <= log && NewCommands(old(log), log) == [Sent(cmd, arg)]
      ensures status == Success && !cmd.IsSwitch() ==>
                log == old(log) + [Sent(cmd, arg)] && replies == old(replies) + [response]
      ensures status != Success ==>
                if cmd.IsProbe() then Silent(old(Now()), Now())
                else if cmd.IsSwitch() then Blamed(old(Now()), Now()) else Faulted(old(Now()), Now())
      ensures status != Success && !cmd.IsSwitch() && Unreset(old(Now()), Now()) ==> log == old(log) && replies == old(replies)
      ensures |host.tried| > |old(host.tried)| && |log| >= |old(log)|
      ensures Unreset(old(Now()), Now()) ==> Card() == old(Card())
      decreases RECOVERY_THRESHOLD + 1 - attempts, 5
    {
      hide Valid, Elsewhere, RcaArg, SwitchArg, IsCardStatusError, InTransferState, NewCommands, Commands, Polls, Later, Recovering, WithReason, Since, Now, Face, Card;
      hide Command.AnswersStatus, Command.IsApp, Command.IsProbe, Command.IsSwitch, Command.IsMultiBlock;
      ghost var polls;
      NowShows();
      status, polls := SendCommand(cmd, arg);
      NowShows();
      SinceGrown(old(Now()), Now());
      NewCommandsOf(old(log), [Sent(cmd, arg)], info.rca, polls);
      CommandsOfOne(Sent(cmd, arg));
      assert polls == 0 ==> Polls(info.rca, polls) == [];
    }

    /** SdhcSendStatus; the status word is left in the response. */
    method ReadStatus() returns (status: Status)
      requires Valid() && attempts <= RECOVERY_THRESHOLD
      modifies this, database, host
      ensures Valid() && attempts == old(attempts) && Since(old(Now()), Now())
      ensures status == Success ==> Unreset(old(Now()), Now()) && Face() == old(Face()) && info == old(info)
      ensures status == Success ==> log == old(log) + [Sent(SendStatus, RcaArg(info.rca))] && replies == old(replies) + [response]
      ensures status == Success ==> host.tried == old(host.tried) + [Sent(SendStatus, RcaArg(info.rca))]
      ensures status != Success ==> Faulted(old(Now()), Now())
      ensures Unreset(old(Now()), Now()) ==> Card() == old(Card())
      decreases RECOVERY_THRESHOLD + 1 - attempts, 2
    {
      hide Valid, Elsewhere, RcaArg, SwitchArg, IsCardStatusError, InTransferState, Later, Recovering, WithReason, Since, Now, Face, Card;
      ghost var polls;
      status, polls := SendCommand(SendStatus, RcaArg(info.rca));
    }

    /** SdhcStopTransmission. */
    method Stop() returns (status: Status)
      requires Valid() && attempts <= RECOVERY_THRESHOLD
      modifies this, database, host
      ensures Valid() && attempts == old(attempts) && Since(old(Now()), Now())
      ensures status == Success ==> Unreset(old(Now()), Now()) && Face() == old(Face()) && info == old(info)
      ensures status == Success ==> log == old(log) + [Sent(StopTransmission, RcaArg(info.rca))] && replies == old(replies) + [response]
      ensures status == Success ==> host.tried == old(host.tried) + [Sent(StopTransmission, RcaArg(info.rca))]
      ensures status != Success ==> Faulted(old(Now()), Now())
      ensures old(host.tried) + [Sent(StopTransmission, RcaArg(old(info.rca)))] <= host.tried
      ensures Unreset(old(Now()), Now()) ==> Card() == old(Card())
      decreases RECOVERY_THRESHOLD + 1 - attempts, 2
    {
      hide Valid, Elsewhere, RcaArg, SwitchArg, IsCardStatusError, InTransferState, Later, Recovering, WithReason, Since, Now, Face, Card;
      ghost var polls;
      status, polls := SendCommand(StopTransmission, RcaArg(info.rca));
    }

    /**
     Polls until the card is ready for data in the transfer state, 200 times at most: to the
     first such answer, or, if no poll fails, in vain for 200 times and once more.
     */
    method WaitForTranStateAndReadyForData() returns (status: Status, ghost polls: nat)
      requires Valid() && attempts <= RECOVERY_THRESHOLD
      modifies this, database, host
      ensures Valid() && attempts == old(attempts) && Since(old(Now()), Now())
      ensures status == Success ==> Unreset(old(Now()), Now()) && Face() == old(Face()) && info == old(info)
      ensures status == Success ==> log == old(log) + Polls(info.rca, polls) && 1 <= polls <= POLL_WAIT_COUNT
      ensures status == Success ==> InTransferState(response) && Busy(replies, |old(log)|)
      ensures status != Success ==> Blamed(old(Now()), Now())
      ensures status != Success && !Faulted(old(Now()), Now()) ==>
                status == Timeout && log == old(log) + Polls(info.rca, POLL_WAIT_COUNT + 1) && Busy(replies, |old(log)|)
      ensures Unreset(old(Now()), Now()) ==> Card() == old(Card())
      decreases RECOVERY_THRESHOLD + 1 - attempts, 3
    {
      hide Valid, Elsewhere, RcaArg, SwitchArg, Later, Recovering, WithReason, Since, Now, Face, Card, Busy;
      polls := 1;
      RepliesMatch();
      BusyFrom(replies);
      NowShows();
      status := ReadStatus();
      NowShows();
      if status != Success {
        return;
      }
      BusyNext(old(replies), response, |old(log)|);
      var retry := POLL_WAIT_COUNT;
      while ((!ReadyForData(response) && retry > 0) || CurrentState(response) != STATE_TRAN) && retry > 0
        invariant Valid() && attempts == old(attempts) && Since(old(Now()), Now())
        invariant Face() == old(Face()) && info == old(info) && Unreset(old(Now()), Now()) && Card() == old(Card())
        invariant 0 <= retry && polls + retry == POLL_WAIT_COUNT + 1 && polls >= 1 && log == old(log) + Polls(info.rca, polls)
        invariant |replies| == |old(log)| + polls && replies[|replies| - 1] == response && Busy(replies, |old(log)|)
        invariant |host.tried| == |old(host.tried)| + polls
        decreases retry
      {
        ghost var mid, answers := Now(), replies;
        assert !InTransferState(response);
        retry := retry - 1;
        NowShows();
        status := ReadStatus();
        NowShows();
        SinceTrans(old(Now()), mid, Now());
        if status != Success {
          return;
        }
        BusyNext(answers, response, |old(log)|);
        polls := polls + 1;
      }
      NowShows();
      if retry == 0 {
        return Timeout, polls;
      }
      return Success, polls;
    }

    /** What follows the data phase: STOP_TRANSMISSION unless the block count was set, and a wait. */
    method FinishTransfer(cmd: Command) returns (status: Status, ghost stopAttempted: bool, ghost polls: nat)
      requires Valid() && attempts <= RECOVERY_THRESHOLD
      requires cmd.IsMultiBlock() ==> last.Some? && preLast.Some?
      modifies this, database, host
      ensures Valid() && attempts == old(attempts) && Since(old(Now()), Now())
      ensures stopAttempted <==> cmd.IsMultiBlock() && old(preLast) != Some(SetBlockCount)
      ensures stopAttempted ==> old(host.tried) + [Sent(StopTransmission, RcaArg(old(info.rca)))] <= host.tried
      ensures status == Success ==> Face() == old(Face()) && info == old(info) && InTransferState(response) && polls >= 1
      ensures status == Success ==>
                log == old(log) + (if stopAttempted then [Sent(StopTransmission, RcaArg(info.rca))] else []) + Polls(info.rca, polls)
      ensures status != Success ==> Blamed(old(Now()), Now())
      ensures Unreset(old(Now()), Now()) ==> Card() == old(Card())
      decreases RECOVERY_THRESHOLD + 1 - attempts, 4
    {
      hide Valid, Elsewhere, RcaArg, SwitchArg, InTransferState, Polls, Later, Recovering, WithReason, Since, Now, Face, Card, Command.IsMultiBlock;
      polls := 0;
      stopAttempted := cmd.IsMultiBlock() && (last.None? || preLast.value != SetBlockCount);
      if cmd.IsMultiBlock() && (last.None? || preLast.value != SetBlockCount) {
        status := Stop();
        if status != Success {
          return;
        }
      }
      ghost var mid := Now();
      NowShows();
      status, polls := WaitForTranStateAndReadyForData();
      NowShows();
      if stopAttempted {
        SinceTrans(old(Now()), mid, Now());
      }
    }

    /**
     SdhcSendDataCommand: command, data phase, STOP_TRANSMISSION after an open-ended
     multi-block transfer, wait; a failure anywhere is followed by a recovery.
     */
    method SendDataCommand(cmd: Command, arg: word)
      returns (status: Status, ghost transferred: bool, ghost stopAttempted: bool, ghost polls: nat)
      requires Valid() && attempts <= RECOVERY_THRESHOLD
      requires cmd.MovesData() && (cmd.IsMultiBlock() ==> log != [])
      modifies this, database, host
      ensures Valid() && attempts == old(attempts) && Since(old(Now()), Now())
      ensures stopAttempted <==> transferred && cmd.IsMultiBlock() && FromEnd(old(log), 0) != Some(SetBlockCount)
      ensures var began := old(host.tried) + [Sent(cmd, arg)];
              began <= host.tried && (stopAttempted ==> began + [Sent(StopTransmission, RcaArg(old(info.rca)))] <= host.tried)
      ensures status == Success ==> transferred && info == old(info) && InTransferState(response)
      ensures status == Success ==> Face() == old(Face()).(moved := old(host.moved) + [cmd])
      ensures status == Success ==> polls >= 1
      ensures status == Success ==>
                log == old(log) + [Sent(cmd, arg)]
                       + (if stopAttempted then [Sent(StopTransmission, RcaArg(info.rca))] else []) + Polls(info.rca, polls)
      ensures status != Success ==> recoveries > old(recoveries) && Blamed(old(Now()), Now())
      ensures Unreset(old(Now()), Now()) ==> Card() == old(Card())
      decreases RECOVERY_THRESHOLD + 1 - attempts, 6
    {
      hide Valid, Elsewhere, RcaArg, SwitchArg, InTransferState, Polls, FromEnd, Later, Recovering, WithReason, Since, Now, Face, Card;
      hide Command.IsMultiBlock, Command.MovesData, Command.IsApp;
      NowShows();
      status, transferred, stopAttempted, polls := TransferAndFinish(cmd, arg);
      if status != Success {
        ghost var failed := Now();
        NowShows();
        var ignored := RecoverFromErrors(cmd);
        NowShows();
        SinceRecovery(old(Now()), failed, Now());
      }
    }

    /** SdhcSendDataCommand without the recovery. */
    method TransferAndFinish(cmd: Command, arg: word)
      returns (status: Status, ghost transferred: bool, ghost stopAttempted: bool, ghost polls: nat)
      requires Valid() && attempts <= RECOVERY_THRESHOLD
      requires cmd.MovesData() && (cmd.IsMultiBlock() ==> log != [])
      modifies this, database, host
      ensures Valid() && attempts == old(attempts) && Since(old(Now()), Now())
      ensures stopAttempted <==> transferred && cmd.IsMultiBlock() && FromEnd(old(log), 0) != Some(SetBlockCount)
      ensures var began := old(host.tried) + [Sent(cmd, arg)];
              began <= host.tried && (stopAttempted ==> began + [Sent(StopTransmission, RcaArg(old(info.rca)))] <= host.tried)
      ensures status == Success ==> transferred && info == old(info) && InTransferState(response)
      ensures status == Success ==> Face() == old(Face()).(moved := old(host.moved) + [cmd])
      ensures status == Success ==> polls >= 1
      ensures status == Success ==>
                log == old(log) + [Sent(cmd, arg)]
                       + (if stopAttempted then [Sent(StopTransmission, RcaArg(info.rca))] else []) + Polls(info.rca, polls)
      ensures status != Success ==> Blamed(old(Now()), Now())
      ensures Unreset(old(Now()), Now()) ==> Card() == old(Card())
      decreases RECOVERY_THRESHOLD + 1 - attempts, 5
    {
      hide Valid, Elsewhere, RcaArg, SwitchArg, InTransferState, Polls, Later, Recovering, WithReason, Since, Now, Face, Card, Command.IsMultiBlock, Command.MovesData, Command.IsApp;
      transferred, stopAttempted, polls := false, false, 0;
      status := Transfer(cmd, arg);
      transferred := status == Success;
      ghost var sent := Now();
      NowShows();
      if status == Success {
        status, stopAttempted, polls := FinishTransfer(cmd);
        SinceTrans(old(Now()), sent, Now());
        NowShows();
      }
    }

    /** The command and its data phase. */
    method Transfer(cmd: Command, arg: word) returns (status: Status)
      requires Valid() && cmd.MovesData()
      modifies this`response, this`last, this`preLast, this`log, this`replies, host`tried, host`trouble, host`moved
      ensures Valid() && Since(old(Now()), Now()) && Unreset(old(Now()), Now())
      ensures host.tried == old(host.tried) + [Sent(cmd, arg)]
      ensures status == Success ==>
                && log == old(log) + [Sent(cmd, arg)] && preLast == FromEnd(old(log), 0) && (log != [Sent(cmd, arg)] ==> last.Some? && preLast.Some?)
                && Face() == old(Face()).(moved := old(host.moved) + [cmd])
      ensures status != Success ==> Faulted(old(Now()), Now())
    {
      hide Elsewhere, OneRpmb, Since, Now, Face, Command.AnswersStatus, Command.IsApp, Command.IsProbe, Command.MovesData, Command.IsMultiBlock;
      Kinds(cmd);
      status := SendCommandHelper(cmd, arg);
      if status == Success {
        ghost var mid := Now();
        status := MoveData(cmd);
        SinceTrans(old(Now()), mid, Now());
      }
    }

    method MoveData(cmd: Command) returns (status: Status)
      requires cmd.MovesData()
      modifies host`trouble, host`moved
      ensures Since(old(Now()), Now()) && Unreset(old(Now()), Now()) && host.tried == old(host.tried)
      ensures status == Success ==> Face() == old(Face()).(moved := old(host.moved) + [cmd])
      ensures status != Success ==> Faulted(old(Now()), Now())
    {
      hide Elsewhere, Since, Trouble.After, Command.MovesData, Command.IsProbe;
      Kinds(cmd);
      TroubleAfter(host.trouble, cmd, true);
      TroubleAfter(host.trouble, cmd, false);
      status := host.MoveBlockData(cmd);
      SinceSent(old(Now()), Now(), [], []);
    }

    /**
     SdhcRecoverFromErrors: bounded by the recovery budget, which is restored on the way
     out. When it is used up nothing is reset or sent; else see ResetLinesOrCard.
     */
    method RecoverFromErrors(cmd: Command) returns (status: Status)
      requires Valid() && attempts <= RECOVERY_THRESHOLD
      modifies this, database, host
      ensures Valid() && attempts == old(attempts) && Later(old(Now()), Now()) && Recovering(old(Now()), Now())
      ensures recoveries > old(recoveries)
      ensures old(attempts) >= RECOVERY_THRESHOLD ==>
                status == ProtocolError && Now() == old(Now()).(recoveries := recoveries) && replies == old(replies)
      ensures old(attempts) < RECOVERY_THRESHOLD ==>
                && LinesReset(cmd, old(Now()), Now())
                && (Deciding(cmd, old(Now()), Now()) != Success ==> !Unreset(old(Now()), Now()))
                && (Deciding(cmd, old(Now()), Now()) == Success && !cmd.IsMultiBlock() ==>
                      && status == Success && replies == old(replies)
                      && Now() == old(Now()).(recoveries := recoveries, trouble := host.trouble, lineResets := host.lineResets))
                && (status == Success && cmd.IsMultiBlock() ==> AtRest())
      ensures Unreset(old(Now()), Now()) && !cmd.IsMultiBlock() ==> log == old(log) && replies == old(replies)
      ensures Unreset(old(Now()), Now()) ==> Card() == old(Card())
      decreases RECOVERY_THRESHOLD + 1 - attempts, 0
    {
      hide Valid, Elsewhere, Now, Later, LinesReset, Deciding, AtRest, Face, Card, Command.MovesData, Command.IsMultiBlock;
      NowShows();
      CountAttempt();
      ghost var mid := Now();
      if attempts > RECOVERY_THRESHOLD {
        status := ProtocolError;
      } else {
        status := ResetLinesOrCard(cmd);
        RecoveryCounted(cmd, old(Now()), mid, Now());
      }
      attempts := attempts - 1;
      NowShows();
      LaterStarted(old(Now()), mid, Now());
    }

    /** One more recovery, nested in those that are under way. */
    method CountAttempt()
      requires Valid() && attempts <= RECOVERY_THRESHOLD
      modifies this`attempts, this`recoveries, this`deepest
      ensures Valid() && attempts == old(attempts) + 1
      ensures Now() == old(Now()).(recoveries := old(recoveries) + 1)
    {
      hide Elsewhere, OneRpmb, FromEnd;
      attempts, recoveries := attempts + 1, recoveries + 1;
      deepest := if attempts > deepest then attempts else deepest;
    }

    /** The card was seen in the transfer state, or accepted STOP_TRANSMISSION. */
    ghost predicate AtRest()
      reads `log, `response
    {
      && log != []
      && (log[|log| - 1].cmd == StopTransmission
          || (log[|log| - 1].cmd == SendStatus && CurrentState(response) == STATE_TRAN))
    }

    /**
     The recovery itself: reset the lines, and the whole card if and only if the last of
     them fails; then stop what is still transferring.
     */
    method ResetLinesOrCard(cmd: Command) returns (status: Status)
      requires Valid() && attempts <= RECOVERY_THRESHOLD
      modifies this, database, host
      ensures Valid() && attempts == old(attempts) && Later(old(Now()), Now())
      ensures LinesReset(cmd, old(Now()), Now())
      ensures Deciding(cmd, old(Now()), Now()) != Success ==> !Unreset(old(Now()), Now())
      ensures !Unreset(old(Now()), Now()) ==> Faulted(old(Now()), Now())
      ensures Deciding(cmd, old(Now()), Now()) == Success && !Unreset(old(Now()), Now()) ==>
                cmd.IsMultiBlock() && recoveries > old(recoveries)
      ensures Deciding(cmd, old(Now()), Now()) == Success && !cmd.IsMultiBlock() ==>
                && status == Success && replies == old(replies)
                && Now() == old(Now()).(trouble := host.trouble, lineResets := host.lineResets)
      ensures Deciding(cmd, old(Now()), Now()) == Success && cmd.IsMultiBlock() && !Faulted(old(Now()), Now()) ==>
                && status == Success && |replies| > |old(log)|
                && log == old(log) + [Sent(SendStatus, RcaArg(info.rca))]
                          + (if CurrentState(replies[|old(log)|]) == STATE_TRAN then [] else [Sent(StopTransmission, RcaArg(info.rca))])
      ensures status == Success && cmd.IsMultiBlock() ==> AtRest()
      ensures Unreset(old(Now()), Now()) ==> Card() == old(Card())
      decreases RECOVERY_THRESHOLD + 1 - attempts, 20
    {
      hide Valid, Elsewhere, RcaArg, SwitchArg, Now, Face, Card, AtRest, Later, Since, WithReason, Recovering, LinesReset, Deciding, Command.MovesData, Command.IsMultiBlock;
      NowShows();
      status := ResetLines(cmd);
      ghost var lines := Now();
      NowShows();
      if status != Success {
        status := SoftReset();
      } else {
        LaterNothing(lines);
      }
      ghost var reset := Now();
      NowShows();
      LaterTrans(old(Now()), lines, reset);
      DecidingStays(cmd, old(Now()), lines, reset);
      if status == Success && cmd.IsMultiBlock() {
        status := StopTransfer();
        NowShows();
        SinceGrown(reset, Now());
        LaterTrans(old(Now()), reset, Now());
        DecidingStays(cmd, old(Now()), reset, Now());
      }
    }

    /** Both line resets; the data lines' status replaces that of the command line. */
    method ResetLines(cmd: Command) returns (status: Status)
      modifies host`lineResets, host`trouble
      ensures Now() == old(Now()).(trouble := host.trouble, lineResets := host.lineResets) && Later(old(Now()), Now())
      ensures LinesReset(cmd, old(Now()), Now()) && status == Deciding(cmd, old(Now()), Now())
      ensures status != Success ==> Faulted(old(Now()), Now())
    {
      hide Elsewhere, Now, Later, Command.MovesData;
      NowShows();
      status := ResetLine(CommandLine);
      NowShows();
      if cmd.MovesData() {
        ghost var mid := Now();
        status := ResetLine(DataLines);
        NowShows();
        LaterTrans(old(Now()), mid, Now());
      }
    }

    method ResetLine(line: Line) returns (status: Status)
      modifies host`lineResets, host`trouble
      ensures Now() == old(Now()).(trouble := host.trouble, lineResets := old(host.lineResets) + [LineReset(line, status)])
      ensures Later(old(Now()), Now())
      ensures status != Success ==> Faulted(old(Now()), Now())
    {
      hide Elsewhere, Later;
      status := host.ResetLine(line);
      LaterLines(old(Now()), Now());
    }

    /** Asks the card for its state, and stops the transmission unless it is back in the transfer state. */
    method StopTransfer() returns (status: Status)
      requires Valid() && attempts <= RECOVERY_THRESHOLD
      modifies this, database, host
      ensures Valid() && attempts == old(attempts) && Since(old(Now()), Now())
      ensures status == Success ==>
                && AtRest() && |replies| > |old(log)|
                && log == old(log) + [Sent(SendStatus, RcaArg(info.rca))]
                          + (if CurrentState(replies[|old(log)|]) == STATE_TRAN then [] else [Sent(StopTransmission, RcaArg(info.rca))])
      ensures status != Success ==> Faulted(old(Now()), Now())
      ensures Unreset(old(Now()), Now()) ==> Card() == old(Card())
      decreases RECOVERY_THRESHOLD + 1 - attempts, 3
    {
      hide Elsewhere, Now, Face, Card, Since, WithReason, Recovering, Later, OneRpmb, FromEnd;
      NowShows();
      status := ReadStatus();
      NowShows();
      if status == Success && CurrentState(response) != STATE_TRAN {
        ghost var mid, seen := Now(), replies;
        status := Stop();
        NowShows();
        SinceTrans(old(Now()), mid, Now());
      }
    }

    // ---------- Identification ----------

    /**
     Finds out what card there is; a failing probe is only one more answer. Without a soft
     reset on the way the card is what the probes it answered say, the MMC one being tried
     last; it is of no known kind if it answered none.
     */
    method QueryCardType() returns (status: Status)
      requires Valid() && attempts <= RECOVERY_THRESHOLD
      modifies this, database, host
      ensures Valid() && attempts == old(attempts) && Since(old(Now()), Now())
      ensures status == Success ==> info.function_ != UnknownCard
      ensures status != Success ==> Blamed(old(Now()), Now()) || (status == NoMedia && info.function_ == UnknownCard)
      ensures Unreset(old(Now()), Now()) && (status == Success || !Blamed(old(Now()), Now())) ==>
                var sd, sdio := Answered(|old(log)|, SendIfCondSd), Answered(|old(log)|, SendOpCondSdio);
                && (info.function_ == ComboSdSdio <==> sd && sdio)
                && (info.function_ == Sd <==> sd && !sdio)
                && (info.function_ == Sdio <==> !sd && sdio)
                && (info.function_ == Mmc <==> !sd && !sdio && Answered(|old(log)|, SendOpCondMmc))
      decreases RECOVERY_THRESHOLD + 1 - attempts, 10
    {
      hide Valid, Elsewhere, RcaArg, SwitchArg, Later, Recovering, WithReason, Since, Now, Face, Answered, Accepts, Blamed;
      NothingAnswered();
      status := GoIdle(|log|);
      if status != Success {
        return;
      }
      ghost var a := Now();
      info := info.(function_ := UnknownCard);
      ProbeSdFamily(|old(log)|);
      ghost var b := Now();
      SinceTrans(old(Now()), a, b);
      if info.function_ != Sd && info.function_ != Sdio && info.function_ != ComboSdSdio {
        status := ProbeMmc(|old(log)|);
        SinceTrans(old(Now()), b, Now());
        if status != Success {
          return;
        }
      }
      return if info.function_ == UnknownCard then NoMedia else Success;
    }

    /** The SD and the SDIO probe, whose failures are only answers. */
    method ProbeSdFamily(ghost from: nat)
      requires Valid() && attempts <= RECOVERY_THRESHOLD && from <= |log| && info.function_ == UnknownCard
      modifies this, database, host
      ensures Valid() && attempts == old(attempts) && Since(old(Now()), Now()) && from <= |log|
      ensures Unreset(old(Now()), Now()) && !old(Answered(from, SendIfCondSd)) && !old(Answered(from, SendOpCondSdio)) ==>
                var sd, sdio := Answered(from, SendIfCondSd), Answered(from, SendOpCondSdio);
                && info.function_ == (if sd then if sdio then ComboSdSdio else Sd else if sdio then Sdio else UnknownCard)
                && (Answered(from, SendOpCondMmc) <==> old(Answered(from, SendOpCondMmc)))
      decreases RECOVERY_THRESHOLD + 1 - attempts, 9
    {
      hide Valid, Elsewhere, RcaArg, SwitchArg, Later, Recovering, WithReason, Since, Now, Face, Answered;
      var status := ProbeSd(from);
      ghost var mid := Now();
      if status == Success {
        info := info.(function_ := Sd);
      }
      status := ProbeSdio(from);
      SinceTrans(old(Now()), mid, Now());
      if status == Success {
        info := info.(function_ := if info.function_ == Sd then ComboSdSdio else Sdio);
      }
    }

    /** SdhcSendOpCondSdio. */
    method ProbeSdio(ghost from: nat) returns (status: Status)
      requires Valid() && attempts <= RECOVERY_THRESHOLD && from <= |log|
      modifies this, database, host
      ensures Valid() && attempts == old(attempts) && Since(old(Now()), Now()) && from <= |log|
      ensures Unreset(old(Now()), Now()) ==>
                && info == old(info)
                && forall c :: Answered(from, c) <==> old(Answered(from, c)) || (c == SendOpCondSdio && status == Success)
      ensures status != Success ==> Silent(old(Now()), Now())
      decreases RECOVERY_THRESHOLD + 1 - attempts, 7
    {
      hide Valid, Elsewhere, RcaArg, SwitchArg, IsCardStatusError, HasBit, NewCommands, Heard, Later, Recovering, WithReason, Since, Now, Face;
      RepliesMatch();
      status := Exchange(SendOpCondSdio, 0);
      RepliesMatch();
      if status == Success {
        HeardNext(old(log), old(replies), Sent(SendOpCondSdio, 0), response, from);
      }
    }

    lemma NothingAnswered()
      requires Valid()
      ensures forall c :: !Answered(|log|, c)
    {
    }

    /** SdhcGoIdleState. */
    method GoIdle(ghost from: nat) returns (status: Status)
      requires Valid() && attempts <= RECOVERY_THRESHOLD && from <= |log|
      modifies this, database, host
      ensures Valid() && attempts == old(attempts) && Since(old(Now()), Now()) && from <= |log|
      ensures status == Success ==>
                && Unreset(old(Now()), Now()) && info == old(info)
                && (forall c :: c != GoIdleState ==> (Answered(from, c) <==> old(Answered(from, c))))
      ensures status != Success ==> Blamed(old(Now()), Now())
      decreases RECOVERY_THRESHOLD + 1 - attempts, 6
    {
      hide Valid, Elsewhere, RcaArg, SwitchArg, IsCardStatusError, NewCommands, Heard, Later, Recovering, WithReason, Since, Face;
      RepliesMatch();
      status := Exchange(GoIdleState, 0);
      RepliesMatch();
      if status == Success {
        HeardNext(old(log), old(replies), Sent(GoIdleState, 0), response, from);
      }
    }

    /** Back to the idle state, and the MMC power-up; only the former's failure counts. */
    method ProbeMmc(ghost from: nat) returns (status: Status)
      requires Valid() && attempts <= RECOVERY_THRESHOLD && from <= |log|
      modifies this, database, host
      ensures Valid() && attempts == old(attempts) && Since(old(Now()), Now())
      ensures status != Success ==> Blamed(old(Now()), Now())
      ensures status == Success && Unreset(old(Now()), Now()) ==>
                && info == old(info).(function_ := info.function_, highCapacity := info.highCapacity)
                && (info.function_ == Mmc || info.function_ == old(info.function_))
                && (old(info.function_) == UnknownCard ==> forall c :: c != GoIdleState ==>
                      (Answered(from, c) <==> old(Answered(from, c)) || (c == SendOpCondMmc && info.function_ == Mmc)))
      decreases RECOVERY_THRESHOLD + 1 - attempts, 9
    {
      hide Valid, Elsewhere, RcaArg, SwitchArg, IsCardStatusError, HasBit, NewCommands, Heard, Later, Recovering, WithReason, Since, Now, Face, Answered, Accepts;
      NowShows();
      status := GoIdle(from);
      if status != Success {
        return;
      }
      ghost var mid := Now();
      NowShows();
      var powered := PowerUpMmc(from);
      SinceTrans(old(Now()), mid, Now());
      if powered == Success {
        info := info.(function_ := Mmc);
      }
    }

    /** SdhcSendIfCondSd: the card must echo the check pattern and the voltage. */
    method ProbeSd(ghost from: nat) returns (status: Status)
      requires Valid() && attempts <= RECOVERY_THRESHOLD && from <= |log|
      modifies this, database, host
      ensures Valid() && attempts == old(attempts) && Since(old(Now()), Now()) && from <= |log|
      ensures Unreset(old(Now()), Now()) ==>
                && info == (if status == Success then old(info).(hasExtendedOcr := true) else old(info))
                && forall c :: Answered(from, c) <==> old(Answered(from, c)) || (c == SendIfCondSd && status == Success)
      ensures status != Success ==> Silent(old(Now()), Now()) || response % 0x1000 != 0x1AA
      decreases RECOVERY_THRESHOLD + 1 - attempts, 8
    {
      hide Valid, Elsewhere, RcaArg, SwitchArg, IsCardStatusError, HasBit, NewCommands, Heard, Later, Recovering, WithReason, Since, Now, Face;
      RepliesMatch();
      status := Exchange(SendIfCondSd, 0x1AA);
      RepliesMatch();
      if status != Success {
        return;
      }
      HeardNext(old(log), old(replies), Sent(SendIfCondSd, 0x1AA), response, from);
      if response % 0x1000 != 0x1AA {
        return Unsupported;
      }
      info := info.(hasExtendedOcr := true);
    }

    /** SdhcSendOpCondSd: polls until the card is powered up, at most 200 times. */
    method PowerUpSd() returns (status: Status, ghost arg: word, ghost polls: nat)
      requires Valid() && attempts <= RECOVERY_THRESHOLD
      modifies this, database, host
      ensures Valid() && attempts == old(attempts) && Since(old(Now()), Now())
      ensures status == Success ==> Face() == old(Face()) && info == old(info).(highCapacity := info.highCapacity) && log != []
      ensures status == Success ==>
                1 <= polls <= POLL_WAIT_COUNT && old(log) <= log && NewCommands(old(log), log) == PowerUpScript(arg, polls)
      ensures status == Success ==>
                && HasBit(response, 0x8000_0000)
                && info.highCapacity == if info.hasExtendedOcr then HasBit(response, 0x4000_0000) else old(info.highCapacity)
      ensures status == Success ==>
                && Unpowered(replies, |old(log)| + 1) && |old(log)| < |replies| && arg == replies[|old(log)|] % 0x100_0000 + 0x4000_0000
      ensures status != Success ==> Blamed(old(Now()), Now())
      ensures status == Timeout && !Faulted(old(Now()), Now()) ==>
                Unpowered(replies, |old(log)| + 1) && |log| > |old(log)| + POLL_WAIT_COUNT && !PoweredUp(response)
      decreases RECOVERY_THRESHOLD + 1 - attempts, 8
    {
      hide Valid, Elsewhere, RcaArg, SwitchArg, HasBit, NewCommands, PowerUpScript, Later, Recovering, WithReason, Since, Now, Face, Unpowered;
      arg, polls := 0, 0;
      RepliesMatch();
      NowShows();
      status := Exchange(AppSendOpCondSd, 0);
      if status != Success {
        return;
      }
      var window := response % 0x100_0000 + 0x4000_0000;
      arg := window;
      PowerUpFirst(window);
      status, polls := PollPowerUp(window, old(log), old(Now()));
      if status == Success && info.hasExtendedOcr {
        info := info.(highCapacity := HasBit(response, 0x4000_0000));
      }
    }

    /** Its polling, behind the first query. */
    method PollPowerUp(arg: word, ghost before: seq<Sent>, ghost a: Tally) returns (status: Status, ghost polls: nat)
      requires Valid() && attempts <= RECOVERY_THRESHOLD
      requires before <= log && |log| == |before| + 1 && NewCommands(before, log) == PowerUpScript(arg, 0)
      requires Since(a, Now()) && Unreset(a, Now())
      modifies this, database, host
      ensures Valid() && attempts == old(attempts) && Since(a, Now())
      ensures status == Success ==> Face() == old(Face()) && info == old(info) && log != [] && PoweredUp(response)
      ensures status == Success ==>
                1 <= polls <= POLL_WAIT_COUNT && before <= log && NewCommands(before, log) == PowerUpScript(arg, polls)
      ensures status == Success ==> Unpowered(replies, |before| + 1) && |before| < |replies| && replies[|before|] == old(replies[|before|])
      ensures status != Success ==> Blamed(a, Now())
      ensures status != Success && !Faulted(a, Now()) ==>
                status == Timeout && Unpowered(replies, |before| + 1) && |log| > |before| + POLL_WAIT_COUNT && !PoweredUp(response)
      decreases RECOVERY_THRESHOLD + 1 - attempts, 7
    {
      hide Valid, Elsewhere, RcaArg, SwitchArg, PoweredUp, NewCommands, PowerUpScript, Later, Recovering, WithReason, Since, Now, Face, Unpowered;
      polls := 0;
      RepliesMatch();
      NowShows();
      SinceGrown(a, Now());
      UnpoweredFrom(replies);
      var retry := POLL_WAIT_COUNT;
      while retry > 0
        invariant Valid() && attempts == old(attempts) && Since(a, Now())
        invariant Face() == old(Face()) && info == old(info)
        invariant 0 <= retry && polls + retry == POLL_WAIT_COUNT
        invariant before <= log && NewCommands(before, log) == PowerUpScript(arg, polls)
        invariant |replies| == |log| == |before| + 1 + polls && Unpowered(replies, |before| + 1) && replies[|before|] == old(replies[|before|])
        invariant polls > 0 ==> replies[|log| - 1] == response && !PoweredUp(response)
        invariant |host.tried| >= |a.tried| + polls
        decreases retry
      {
        ghost var answers, mid := replies, Now();
        status := AskSd(arg, before, polls);
        RepliesMatch();
        SinceTrans(a, mid, Now());
        if status != Success {
          return;
        }
        UnpoweredNext(answers, response, |before| + 1);
        polls := polls + 1;
        if PoweredUp(response) {
          return;
        }
        retry := retry - 1;
      }
      NowShows();
      return Timeout, polls;
    }

    method AskSd(arg: word, ghost before: seq<Sent>, ghost n: nat) returns (status: Status)
      requires Valid() && attempts <= RECOVERY_THRESHOLD
      requires before <= log && NewCommands(before, log) == PowerUpScript(arg, n)
      modifies this, database, host
      ensures Valid() && attempts == old(attempts) && Since(old(Now()), Now())
      ensures status == Success ==>
                && Face() == old(Face()) && info == old(info)
                && log == old(log) + [Sent(AppSendOpCondSd, arg)] && replies == old(replies) + [response]
                && before <= log && NewCommands(before, log) == PowerUpScript(arg, n + 1)
      ensures status != Success ==> Faulted(old(Now()), Now())
      ensures |host.tried| > |old(host.tried)|
      decreases RECOVERY_THRESHOLD + 1 - attempts, 6
    {
      hide Valid, Elsewhere, NewCommands, PowerUpScript, Later, Recovering, WithReason, Since, Now, Face;
      status := Exchange(AppSendOpCondSd, arg);
      if status == Success {
        NewCommandsCompose(before, old(log), log);
        PowerUpNext(arg, n);
      }
    }

    /** SdhcSendOpCondMmc. */
    method PowerUpMmc(ghost from: nat) returns (status: Status)
      requires Valid() && attempts <= RECOVERY_THRESHOLD && from <= |log|
      modifies this, database, host
      ensures Valid() && attempts == old(attempts) && Since(old(Now()), Now())
      ensures Unreset(old(Now()), Now()) ==>
                && info == old(info).(highCapacity := info.highCapacity)
                && forall c :: Answered(from, c) <==> old(Answered(from, c)) || (c == SendOpCondMmc && status == Success)
      ensures status == Success ==> old(log) <= log && log != [] && replies[|log| - 1] == response
      ensures status == Success ==> info.highCapacity == (response / 0x2000_0000 % 4 == 2) && Unpowered(replies, |old(log)|)
      ensures status == Timeout && !Silent(old(Now()), Now()) ==>
                Unpowered(replies, |old(log)|) && |log| == |old(log)| + POLL_WAIT_COUNT && !PoweredUp(response)
      ensures status != Success && !Silent(old(Now()), Now()) ==> log != [] && !Accepts(SendOpCondMmc, response)
      decreases RECOVERY_THRESHOLD + 1 - attempts, 8
    {
      hide Valid, Elsewhere, RcaArg, SwitchArg, IsCardStatusError, HasBit, NewCommands, Later, Recovering, WithReason, Since, Now, Face, Answered, Unpowered;
      var retry := POLL_WAIT_COUNT;
      RepliesMatch();
      UnpoweredFrom(replies);
      SinceNothing(Now());
      while retry > 0
        invariant Valid() && attempts == old(attempts) && Since(old(Now()), Now())
        invariant Face() == old(Face()) && Unreset(old(Now()), Now()) && info == old(info) && 0 <= retry <= POLL_WAIT_COUNT
        invariant |replies| == |log| && old(log) <= log && |log| == |old(log)| + POLL_WAIT_COUNT - retry && Unpowered(replies, |old(log)|)
        invariant retry < POLL_WAIT_COUNT ==> !PoweredUp(response) && replies[|log| - 1] == response
        invariant forall c :: Answered(from, c) <==> old(Answered(from, c))
        decreases retry
      {
        ghost var answers, mid := replies, Now();
        status := AskMmc(from);
        RepliesMatch();
        SinceTrans(old(Now()), mid, Now());
        if status != Success {
          return;
        }
        UnpoweredNext(answers, response, |old(log)|);
        if HasBit(response, 0x8000_0000) {
          info := info.(highCapacity := response / 0x2000_0000 % 4 == 2);
          return if response % 0x100_0000 / 0x8000 == 0x1FF then Success else Unsupported;
        }
        retry := retry - 1;
      }
      return Timeout;
    }

    method AskMmc(ghost from: nat) returns (status: Status)
      requires Valid() && attempts <= RECOVERY_THRESHOLD && from <= |log|
      modifies this, database, host
      ensures Valid() && attempts == old(attempts) && Since(old(Now()), Now())
      ensures status == Success ==>
                && Unreset(old(Now()), Now()) && Face() == old(Face()) && info == old(info)
                && log == old(log) + [Sent(SendOpCondMmc, 0x40FF_8000)] && replies == old(replies) + [response]
      ensures status != Success ==> Silent(old(Now()), Now())
      ensures Unreset(old(Now()), Now()) ==>
                && info == old(info)
                && forall c :: Answered(from, c) <==>
                     old(Answered(from, c)) || (c == SendOpCondMmc && status == Success && Accepts(c, response))
      decreases RECOVERY_THRESHOLD + 1 - attempts, 6
    {
      hide Valid, Elsewhere, NewCommands, Later, Recovering, WithReason, Since, Now, Face, Heard, Accepts;
      RepliesMatch();
      status := Exchange(SendOpCondMmc, 0x40FF_8000);
      RepliesMatch();
      if status == Success {
        HeardNext(old(log), old(replies), Sent(SendOpCondMmc, 0x40FF_8000), response, from);
      }
    }

    /** SdhcSendRelativeAddr: an MMC card is given an address, an SD card gives one. */
    method AssignRelativeAddr() returns (status: Status)
      requires Valid() && attempts <= RECOVERY_THRESHOLD
      modifies this, database, host
      ensures Valid() && attempts == old(attempts) && Since(old(Now()), Now())
      ensures status == Success ==> Face() == old(Face()) && info == old(info).(rca := info.rca) && log != []
      ensures status == Success ==>
                && old(log) <= log && info.rca == (if info.function_ == Mmc then MMC_RCA else response / 0x1_0000)
                && NewCommands(old(log), log) == [Sent(SendRelativeAddr, if info.function_ == Mmc then RcaArg(MMC_RCA) else 0)]
      ensures status != Success ==> Blamed(old(Now()), Now())
      decreases RECOVERY_THRESHOLD + 1 - attempts, 8
    {
      hide Valid, Elsewhere, RcaArg, SwitchArg, IsCardStatusError, HasBit, NewCommands, Later, Recovering, WithReason, Since, Now, Face, Card;
      var arg: word := 0;
      if info.function_ == Mmc {
        info := info.(rca := MMC_RCA);
        arg := RcaArg(info.rca);
      }
      status := Exchange(SendRelativeAddr, arg);
      if status != Success {
        return;
      }
      if info.function_ != Mmc {
        info := info.(rca := response / 0x1_0000);
      }
    }

    /** SdhcSendCid and SdhcSendCsd: the serial number, the specification version and the capacity. */
    method ReadCardRegisters() returns (status: Status)
      requires Valid() && attempts <= RECOVERY_THRESHOLD
      modifies this, database, host
      ensures Valid() && attempts == old(attempts) && Since(old(Now()), Now())
      ensures status == Success ==>
                && Face() == old(Face()).(media := media)
                && media == old(media).(blockSize := BLOCK_LENGTH, lastBlock := media.lastBlock)
                && info == old(info).(serial := info.serial, specVersion := info.specVersion) && log != []
      ensures status == Success ==>
                old(log) <= log && NewCommands(old(log), log) == [Sent(SendCid, RcaArg(info.rca)), Sent(SendCsd, RcaArg(info.rca))]
      ensures status != Success ==> Blamed(old(Now()), Now())
      decreases RECOVERY_THRESHOLD + 1 - attempts, 8
    {
      hide Valid, Elsewhere, RcaArg, SwitchArg, NewCommands, Later, Recovering, WithReason, Since, Now, Face;
      FaceShows();
      status := Exchange(SendCid, RcaArg(info.rca));
      if status != Success {
        return;
      }
      ghost var before, mid := log, Now();
      var serial: word := *;
      info := info.(serial := serial);
      status := Exchange(SendCsd, RcaArg(info.rca));
      SinceTrans(old(Now()), mid, Now());
      if status != Success {
        return;
      }
      NewCommandsCompose(old(log), before, log);
      var version: byte := *;
      var lastBlock: nat := *;
      info := info.(specVersion := version);
      NoteGeometry(BLOCK_LENGTH, lastBlock);
      FaceShows();
    }

    method NoteGeometry(blockSize: nat, lastBlock: nat)
      requires Valid()
      modifies this`media
      ensures Valid() && Now() == old(Now()) && Face() == old(Face()).(media := media)
      ensures media == old(media).(blockSize := blockSize, lastBlock := lastBlock)
    {
      hide Elsewhere, OneRpmb, FromEnd;
      media := media.(blockSize := blockSize, lastBlock := lastBlock);
    }

    // ---------- MMC registers ----------

    /** SdhcSendExtCsdMmc: reads the extended CSD, and the capacity from it. */
    method ReadExtCsd() returns (status: Status)
      requires Valid() && attempts <= RECOVERY_THRESHOLD
      modifies this, database, host
      ensures Valid() && attempts == old(attempts) && Since(old(Now()), Now())
      ensures status == Success ==>
                && Face() == old(Face()).(media := media, moved := old(host.moved) + [SendExtCsdMmc])
                && media == old(media).(lastBlock := if info.ext.sectorCount == 0 then TWO_TO_THE_32 - 1 else info.ext.sectorCount - 1)
                && info == old(info).(ext := info.ext)
                && log != [] && old(log) <= log && NewCommands(old(log), log) == [Sent(SendExtCsdMmc, RcaArg(info.rca))]
      ensures status != Success ==> Blamed(old(Now()), Now())
      ensures Unreset(old(Now()), Now()) && status != Success ==> Card() == old(Card())
      decreases RECOVERY_THRESHOLD + 1 - attempts, 7
    {
      hide Valid, Elsewhere, RcaArg, SwitchArg, InTransferState, FromEnd, NewCommands, Commands, Polls, Later, Recovering, WithReason, Since, Now, Face;
      ghost var transferred, stopped, polls;
      FaceShows();
      status, transferred, stopped, polls := SendDataCommand(SendExtCsdMmc, RcaArg(info.rca));
      if status != Success {
        return;
      }
      NewCommandsOf(old(log), [Sent(SendExtCsdMmc, RcaArg(info.rca))], info.rca, polls);
      CommandsOfOne(Sent(SendExtCsdMmc, RcaArg(info.rca)));
      assert log == old(log) + [Sent(SendExtCsdMmc, RcaArg(info.rca))] + Polls(info.rca, polls);
      var ext: ExtCsd := *;
      info := info.(ext := ext);
      FaceShows();
      NoteGeometry(media.blockSize, if ext.sectorCount == 0 then TWO_TO_THE_32 - 1 else ext.sectorCount - 1);
    }

    /** SdhcSwitchSpeedModeMmc. */
    method SwitchSpeedModeMmc() returns (status: Status)
      requires Valid() && attempts <= RECOVERY_THRESHOLD
      modifies this, database, host
      ensures Valid() && attempts == old(attempts) && Since(old(Now()), Now())
      ensures status == Success ==>
                && Face() == old(Face()).(media := media, moved := host.moved) && media == old(media).(lastBlock := media.lastBlock)
                && info == old(info).(ext := info.ext, speedMode := HighSpeed) && info.ext.highSpeedTiming != 0 && log != []
      ensures status == Success ==>
                && old(log) <= log
                && NewCommands(old(log), log) == [Sent(SwitchMmc, SwitchArg(EXT_CSD_HS_TIMING, 1)), Sent(SendExtCsdMmc, RcaArg(info.rca))]
      ensures status != Success ==>
                Blamed(old(Now()), Now())
                || (status == ProtocolError && info == old(info).(ext := info.ext, speedMode := HighSpeed) && info.ext.highSpeedTiming == 0)
      decreases RECOVERY_THRESHOLD + 1 - attempts, 9
    {
      hide Valid, Elsewhere, RcaArg, SwitchArg, NewCommands, Later, Recovering, WithReason, Since, Now, Face;
      FaceShows();
      status := Exchange(SwitchMmc, SwitchArg(EXT_CSD_HS_TIMING, 1));
      FaceShows();
      if status != Success {
        return;
      }
      ghost var before, mid := log, Now();
      info := info.(speedMode := HighSpeed);
      status := ReadExtCsd();
      FaceShows();
      SinceTrans(old(Now()), mid, Now());
      if status == Success {
        NewCommandsCompose(old(log), before, log);
      }
      if status == Success && info.ext.highSpeedTiming == 0 {
        return ProtocolError;
      }
    }

    /** The power class that the 8-bit bus needs at the current speed. */
    function PowerClassNeeded(): byte
      reads `info
    {
      if info.speedMode == HighSpeed then info.ext.powerClass52 / 16 else info.ext.powerClass26 / 16
    }

    /** SdhcSwitchBusWidthMmc, with a switch to the power class that the wider bus needs. */
    method SwitchBusWidthMmc() returns (status: Status, ghost switched: Option<byte>)
      requires Valid() && attempts <= RECOVERY_THRESHOLD
      modifies this, database, host
      ensures Valid() && attempts == old(attempts) && Since(old(Now()), Now())
      ensures status == Success ==>
                && (var was := old(Face());
                    Face() == was.(media := media, moved := host.moved, tally := was.tally.(settings := old(host.settings) + [BusWidth(8)])))
                && media == old(media).(lastBlock := media.lastBlock)
                && info == old(info).(ext := info.ext) && log != []
      ensures status == Success ==> old(log) <= log && NewCommands(old(log), log) == BusWidthScript(switched, info.rca)
      ensures status == Success ==>
                if switched.Some? then info.ext.powerClass == switched.value else PowerClassNeeded() <= info.ext.powerClass
      ensures status != Success ==> Blamed(old(Now()), Now()) || (status == ProtocolError && info == old(info).(ext := info.ext))
      decreases RECOVERY_THRESHOLD + 1 - attempts, 11
    {
      hide Valid, Elsewhere, RcaArg, SwitchArg, NewCommands, PowerClassScript, Later, Recovering, WithReason, Since, Now, Face;
      status, switched := PrepareBus();
      if status != Success {
        return;
      }
      FaceShows();
      ghost var before, mid := log, Now();
      status := Exchange(SwitchMmc, SwitchArg(EXT_CSD_BUS_WIDTH, 2));
      SinceTrans(old(Now()), mid, Now());
      if status != Success {
        return;
      }
      FaceShows();
      NewCommandsCompose(old(log), before, log);
      mid := Now();
      status := Configure(BusWidth(8));
      SinceTrans(old(Now()), mid, Now());
    }

    /** Reads the register, and sees to the power class. */
    method PrepareBus() returns (status: Status, ghost switched: Option<byte>)
      requires Valid() && attempts <= RECOVERY_THRESHOLD
      modifies this, database, host
      ensures Valid() && attempts == old(attempts) && Since(old(Now()), Now())
      ensures status == Success ==>
                && Face() == old(Face()).(media := media, moved := host.moved) && media == old(media).(lastBlock := media.lastBlock)
                && info == old(info).(ext := info.ext) && log != []
                && old(log) <= log
                && NewCommands(old(log), log) == [Sent(SendExtCsdMmc, RcaArg(info.rca))] + PowerClassScript(switched, info.rca)
      ensures status == Success ==> host.settings == old(host.settings)
      ensures status == Success ==>
                if switched.Some? then info.ext.powerClass == switched.value else PowerClassNeeded() <= info.ext.powerClass
      ensures status != Success ==> Blamed(old(Now()), Now()) || (status == ProtocolError && info == old(info).(ext := info.ext))
      decreases RECOVERY_THRESHOLD + 1 - attempts, 10
    {
      hide Valid, Elsewhere, RcaArg, SwitchArg, NewCommands, PowerClassScript, Later, Recovering, WithReason, Since, Now, Face;
      switched := None;
      FaceShows();
      NowShows();
      status := ReadExtCsd();
      if status != Success {
        return;
      }
      FaceShows();
      ghost var before, mid := log, Now();
      status, switched := RaisePowerClass();
      SinceTrans(old(Now()), mid, Now());
      if status != Success {
        return;
      }
      FaceShows();
      NowShows();
      NewCommandsCompose(old(log), before, log);
    }

    /** Switches to the power class that the wider bus needs, unless the present one is enough. */
    method RaisePowerClass() returns (status: Status, ghost switched: Option<byte>)
      requires Valid() && attempts <= RECOVERY_THRESHOLD
      modifies this, database, host
      ensures Valid() && attempts == old(attempts) && Since(old(Now()), Now())
      ensures status == Success ==>
                && Face() == old(Face()).(media := media, moved := host.moved) && media == old(media).(lastBlock := media.lastBlock)
                && info == old(info).(ext := info.ext)
                && old(log) <= log && NewCommands(old(log), log) == PowerClassScript(switched, info.rca)
      ensures status == Success ==>
                if switched.Some? then info.ext.powerClass == switched.value else PowerClassNeeded() <= info.ext.powerClass
      ensures status != Success ==> Blamed(old(Now()), Now()) || (status == ProtocolError && info == old(info).(ext := info.ext))
      decreases RECOVERY_THRESHOLD + 1 - attempts, 9
    {
      hide Valid, Elsewhere, RcaArg, SwitchArg, Later, Recovering, WithReason, Since, Now;
      var powerClass := PowerClassNeeded();
      if powerClass > info.ext.powerClass {
        status := SwitchPowerClassMmc(powerClass);
        return status, if status == Success then Some(powerClass) else None;
      }
      SinceNothing(Now());
      return Success, None;
    }

    /** A setting of the host controller. */
    method Configure(setting: Setting) returns (status: Status)
      requires Valid()
      modifies host`settings, host`trouble
      ensures Valid() && Since(old(Now()), Now())
      ensures host.settings == old(host.settings) + [setting]
      ensures status == Success ==>
                host.trouble == old(host.trouble) && Face() == old(Face()).(tally := old(Face()).tally.(settings := host.settings))
      ensures status != Success ==> Faulted(old(Now()), Now())
    {
      hide Valid, Elsewhere;
      status := host.Set(setting);
    }

    /** The power class that the wider bus needs, confirmed by the card. */
    method SwitchPowerClassMmc(powerClass: byte) returns (status: Status)
      requires Valid() && attempts <= RECOVERY_THRESHOLD
      modifies this, database, host
      ensures Valid() && attempts == old(attempts) && Since(old(Now()), Now())
      ensures status == Success ==>
                && Face() == old(Face()).(media := media, moved := host.moved) && media == old(media).(lastBlock := media.lastBlock)
                && info == old(info).(ext := info.ext) && info.ext.powerClass == powerClass && log != []
      ensures status == Success ==>
                && old(log) <= log
                && NewCommands(old(log), log) ==
                   [Sent(SwitchMmc, SwitchArg(EXT_CSD_POWER_CLASS, powerClass)), Sent(SendExtCsdMmc, RcaArg(info.rca))]
      ensures status != Success ==>
                Blamed(old(Now()), Now())
                || (status == ProtocolError && info == old(info).(ext := info.ext) && info.ext.powerClass != powerClass)
      decreases RECOVERY_THRESHOLD + 1 - attempts, 8
    {
      hide Valid, Elsewhere, RcaArg, SwitchArg, NewCommands, Later, Recovering, WithReason, Since, Now, Face;
      FaceShows();
      status := Exchange(SwitchMmc, SwitchArg(EXT_CSD_POWER_CLASS, powerClass));
      FaceShows();
      if status != Success {
        return;
      }
      ghost var before, mid := log, Now();
      status := ReadExtCsd();
      FaceShows();
      SinceTrans(old(Now()), mid, Now());
      if status != Success {
        return;
      }
      NewCommandsCompose(old(log), before, log);
      if info.ext.powerClass != powerClass {
        return ProtocolError;
      }
    }

    /** SdhcSwitchPartitionMmc: a success is confirmed by the card's own register. */
    method SwitchPartitionMmc(partition: byte) returns (status: Status)
      requires Valid() && attempts <= RECOVERY_THRESHOLD && partition < 8
      modifies this, database, host
      ensures Valid() && attempts == old(attempts) && Since(old(Now()), Now())
      ensures old(host.tried) + [Sent(SwitchMmc, SwitchArg(EXT_CSD_PARTITION_CONFIG, WithAccess(old(info.ext.partitionConfig), partition)))]
              <= host.tried
      ensures status == Success ==>
                && currentPartition == partition && Access(info.ext.partitionConfig) == partition
                && recoveries == old(recoveries) && slotInitialized == old(slotInitialized)
                && host.trouble == old(host.trouble) && Flags() == old(Flags())
                && database.installed == old(database.installed) && info == old(info).(ext := info.ext)
                && log != [] && old(log) <= log
                && NewCommands(old(log), log) == SwitchScript(old(info.ext.partitionConfig), partition, info.rca)
      ensures status != Success && Unreset(old(Now()), Now()) ==> currentPartition == old(currentPartition)
      ensures status != Success ==>
                Blamed(old(Now()), Now()) || (status == DeviceError && Access(info.ext.partitionConfig) != partition)
      decreases RECOVERY_THRESHOLD + 1 - attempts, 9
    {
      hide Valid, Elsewhere, RcaArg, SwitchArg, NewCommands, SwitchScript, Later, Recovering, WithReason, Since, Now, Face;
      NowShows();
      FaceShows();
      status := SwitchAndReread(WithAccess(info.ext.partitionConfig, partition));
      NowShows();
      FaceShows();
      if status != Success {
        return;
      }
      SwitchScriptIs(old(info.ext.partitionConfig), partition, info.rca);
      if Access(info.ext.partitionConfig) != partition {
        return DeviceError;
      }
      SetPartition(partition);
    }

    /** Writes the partition configuration, and reads the register again. */
    method SwitchAndReread(config: byte) returns (status: Status)
      requires Valid() && attempts <= RECOVERY_THRESHOLD
      modifies this, database, host
      ensures Valid() && attempts == old(attempts) && Since(old(Now()), Now())
      ensures old(host.tried) + [Sent(SwitchMmc, SwitchArg(EXT_CSD_PARTITION_CONFIG, config))] <= host.tried
      ensures status == Success ==>
                && Face() == old(Face()).(media := media, moved := host.moved) && info == old(info).(ext := info.ext)
                && log != [] && old(log) <= log
                && NewCommands(old(log), log) ==
                   [Sent(SwitchMmc, SwitchArg(EXT_CSD_PARTITION_CONFIG, config)), Sent(SendExtCsdMmc, RcaArg(info.rca))]
      ensures status != Success && Unreset(old(Now()), Now()) ==> Card() == old(Card())
      ensures status != Success ==> Blamed(old(Now()), Now())
      decreases RECOVERY_THRESHOLD + 1 - attempts, 8
    {
      hide Valid, Elsewhere, RcaArg, SwitchArg, NewCommands, Commands, Polls, InTransferState, Later, Recovering, WithReason, Since, Now, Face;
      ghost var polls;
      var sent := Sent(SwitchMmc, SwitchArg(EXT_CSD_PARTITION_CONFIG, config));
      NowShows();
      FaceShows();
      status, polls := SendCommand(sent.cmd, sent.arg);
      NowShows();
      if status != Success {
        return;
      }
      ghost var before, mid := log, Now();
      NewCommandsOf(old(log), [sent], info.rca, polls);
      CommandsOfOne(sent);
      FaceShows();
      status := ReadExtCsd();
      SinceTrans(old(Now()), mid, Now());
      NowShows();
      FaceShows();
      if status == Success {
        NewCommandsCompose(old(log), before, log);
      }
    }

    method SetPartition(partition: byte)
      requires Valid() && partition < 8
      modifies this`currentPartition
      ensures Valid() && currentPartition == partition
    {
      hide Elsewhere, OneRpmb, FromEnd;
      currentPartition := partition;
    }

    // ---------- Initialisation ----------

    method InitializeSdDevice() returns (status: Status, ghost arg: word, ghost polls: nat)
      requires Valid() && attempts <= RECOVERY_THRESHOLD && info.function_ == Sd
      modifies this, database, host
      ensures Valid() && attempts == old(attempts) && Since(old(Now()), Now())
      ensures status == Success ==> info.function_ == Sd && media.blockSize == BLOCK_LENGTH && log != []
      ensures status == Success ==> recoveries == old(recoveries) && host.trouble == old(host.trouble)
      ensures status == Success ==> host.settings == old(host.settings) + [BusWidth(4), FullClock]
      ensures status == Success ==>
                1 <= polls && old(log) <= log && NewCommands(old(log), log) == PowerUpScript(arg, polls) + SdScript(info.rca)
      ensures status != Success ==> Blamed(old(Now()), Now())
      decreases RECOVERY_THRESHOLD + 1 - attempts, 10
    {
      hide Valid, Elsewhere, RcaArg, SwitchArg, PowerUpScript, NewCommands, Later, Recovering, WithReason, Since, Now, Face;
      FaceShows();
      status, arg, polls := PowerUpSd();
      if status != Success {
        return;
      }
      ghost var before, mid := log, Now();
      FaceShows();
      status := IdentifyCard();
      SinceTrans(old(Now()), mid, Now());
      if status != Success {
        return;
      }
      NewCommandsCompose(old(log), before, log);
      before, mid := log, Now();
      FaceShows();
      status := SelectAndWiden();
      SinceTrans(old(Now()), mid, Now());
      if status != Success {
        return;
      }
      NewCommandsCompose(old(log), before, log);
      mid := Now();
      FaceShows();
      status := Configure(FullClock);
      SinceTrans(old(Now()), mid, Now());
    }

    /** SdhcSelectDevice and SdhcSwitchBusWidthSd. */
    method SelectAndWiden() returns (status: Status)
      requires Valid() && attempts <= RECOVERY_THRESHOLD
      modifies this, database, host
      ensures Valid() && attempts == old(attempts) && Since(old(Now()), Now())
      ensures status == Success ==>
                && Face() == old(Face()).(tally := old(Face()).tally.(settings := old(host.settings) + [BusWidth(4)]))
                && info == old(info) && log != [] && old(log) <= log
                && NewCommands(old(log), log) == [Sent(Select, RcaArg(info.rca)), Sent(AppSetBusWidthSd, 2)]
      ensures status != Success ==> Blamed(old(Now()), Now())
      decreases RECOVERY_THRESHOLD + 1 - attempts, 8
    {
      hide Valid, Elsewhere, RcaArg, SwitchArg, NewCommands, Later, Recovering, WithReason, Since, Now, Face;
      FaceShows();
      status := Exchange(Select, RcaArg(info.rca));
      if status != Success {
        return;
      }
      ghost var before, mid := log, Now();
      status := Exchange(AppSetBusWidthSd, 2);
      SinceTrans(old(Now()), mid, Now());
      if status != Success {
        return;
      }
      NewCommandsCompose(old(log), before, log);
      mid := Now();
      FaceShows();
      status := Configure(BusWidth(4));
      SinceTrans(old(Now()), mid, Now());
    }

    /** CID, address and registers, which both kinds of card go through. */
    method IdentifyCard() returns (status: Status)
      requires Valid() && attempts <= RECOVERY_THRESHOLD
      modifies this, database, host
      ensures Valid() && attempts == old(attempts) && Since(old(Now()), Now())
      ensures status == Success ==>
                && Face() == old(Face()).(media := media)
                && media == old(media).(blockSize := BLOCK_LENGTH, lastBlock := media.lastBlock)
                && info == old(info).(rca := info.rca, serial := info.serial, specVersion := info.specVersion) && log != []
                && (info.function_ == Mmc ==> info.rca == MMC_RCA)
      ensures status == Success ==>
                && old(log) <= log
                && NewCommands(old(log), log) ==
                   [Sent(SendCidAll, 0), Sent(SendRelativeAddr, if info.function_ == Mmc then RcaArg(MMC_RCA) else 0),
                    Sent(SendCid, RcaArg(info.rca)), Sent(SendCsd, RcaArg(info.rca))]
      ensures status != Success ==> Blamed(old(Now()), Now())
      decreases RECOVERY_THRESHOLD + 1 - attempts, 9
    {
      hide Valid, Elsewhere, RcaArg, SwitchArg, NewCommands, Later, Recovering, WithReason, Since, Now, Face;
      FaceShows();
      status := Exchange(SendCidAll, 0);
      if status != Success {
        return;
      }
      ghost var before, mid := log, Now();
      status := AssignRelativeAddr();
      SinceTrans(old(Now()), mid, Now());
      if status != Success {
        return;
      }
      NewCommandsCompose(old(log), before, log);
      FaceShows();
      before, mid := log, Now();
      status := ReadCardRegisters();
      SinceTrans(old(Now()), mid, Now());
      if status != Success {
        return;
      }
      NewCommandsCompose(old(log), before, log);
    }

    method InitializeMmcDevice() returns (status: Status, ghost powerClass: Option<byte>)
      requires Valid() && attempts <= RECOVERY_THRESHOLD && info.function_ == Mmc
      modifies this, database, host
      ensures Valid() && attempts == old(attempts) && Since(old(Now()), Now())
      ensures status == Success ==>
                && info.function_ == Mmc && info.speedMode == HighSpeed && info.specVersion >= 4
                && media.blockSize == BLOCK_LENGTH && log != []
      ensures status == Success ==> recoveries == old(recoveries) && host.trouble == old(host.trouble)
      ensures status == Success ==> host.settings == old(host.settings) + [BusWidth(8), FullClock]
      ensures status == Success ==> old(log) <= log && NewCommands(old(log), log) == MmcScript(powerClass)
      ensures status != Success ==>
                Blamed(old(Now()), Now())
                || (info.function_ == Mmc && status == Unsupported && info.specVersion < 4)
                || (info.function_ == Mmc && status == ProtocolError && info.specVersion >= 4 && info.speedMode == HighSpeed)
      decreases RECOVERY_THRESHOLD + 1 - attempts, 13
    {
      hide Valid, Elsewhere, RcaArg, SwitchArg, NewCommands, BusWidthScript, MmcScript, Later, Recovering, WithReason, Since, Now, Face;
      powerClass := None;
      FaceShows();
      status := IdentifyCard();
      if status != Success {
        return;
      }
      if info.specVersion < 4 {
        return Unsupported, powerClass;
      }
      FaceShows();
      ghost var before, mid := log, Now();
      status := SelectAndSpeed();
      SinceTrans(old(Now()), mid, Now());
      if status != Success {
        return;
      }
      NewCommandsCompose(old(log), before, log);
      FaceShows();
      before, mid := log, Now();
      status, powerClass := WidenAndClock();
      SinceTrans(old(Now()), mid, Now());
      if status != Success {
        return;
      }
      NewCommandsCompose(old(log), before, log);
      FaceShows();
      MmcScriptIs(powerClass);
    }

    /** SdhcSwitchBusWidthMmc, and the host controller's clock for high-speed mode. */
    method WidenAndClock() returns (status: Status, ghost powerClass: Option<byte>)
      requires Valid() && attempts <= RECOVERY_THRESHOLD
      modifies this, database, host
      ensures Valid() && attempts == old(attempts) && Since(old(Now()), Now())
      ensures status == Success ==>
                && recoveries == old(recoveries) && host.trouble == old(host.trouble)
                && host.settings == old(host.settings) + [BusWidth(8), FullClock]
                && media == old(media).(lastBlock := media.lastBlock) && info == old(info).(ext := info.ext) && log != []
                && old(log) <= log && NewCommands(old(log), log) == BusWidthScript(powerClass, info.rca)
      ensures status != Success ==> Blamed(old(Now()), Now()) || (status == ProtocolError && info == old(info).(ext := info.ext))
      decreases RECOVERY_THRESHOLD + 1 - attempts, 12
    {
      hide Valid, Elsewhere, NewCommands, BusWidthScript, Later, Recovering, WithReason, Since, Now, Face;
      FaceShows();
      status, powerClass := SwitchBusWidthMmc();
      if status != Success {
        return;
      }
      FaceShows();
      ghost var mid := Now();
      status := Configure(FullClock);
      SinceTrans(old(Now()), mid, Now());
    }

    /** SdhcSelectDevice, the extended register, and high speed. */
    method SelectAndSpeed() returns (status: Status)
      requires Valid() && attempts <= RECOVERY_THRESHOLD
      modifies this, database, host
      ensures Valid() && attempts == old(attempts) && Since(old(Now()), Now())
      ensures status == Success ==>
                && Face() == old(Face()).(media := media, moved := host.moved) && media == old(media).(lastBlock := media.lastBlock)
                && info == old(info).(ext := info.ext, speedMode := HighSpeed) && log != [] && old(log) <= log
                && NewCommands(old(log), log) ==
                   [Sent(Select, RcaArg(info.rca)), Sent(SendExtCsdMmc, RcaArg(info.rca)),
                    Sent(SwitchMmc, SwitchArg(EXT_CSD_HS_TIMING, 1)), Sent(SendExtCsdMmc, RcaArg(info.rca))]
      ensures status != Success ==>
                Blamed(old(Now()), Now())
                || (status == ProtocolError && info == old(info).(ext := info.ext, speedMode := HighSpeed) && info.ext.highSpeedTiming == 0)
      decreases RECOVERY_THRESHOLD + 1 - attempts, 11
    {
      hide Valid, Elsewhere, RcaArg, SwitchArg, NewCommands, Later, Recovering, WithReason, Since, Now, Face;
      FaceShows();
      status := Exchange(Select, RcaArg(info.rca));
      if status != Success {
        return;
      }
      FaceShows();
      ghost var before, mid := log, Now();
      status := ReadExtCsd();
      SinceTrans(old(Now()), mid, Now());
      if status != Success {
        return;
      }
      NewCommandsCompose(old(log), before, log);
      FaceShows();
      before, mid := log, Now();
      status := SwitchSpeedModeMmc();
      SinceTrans(old(Now()), mid, Now());
      if status != Success {
        return;
      }
      NewCommandsCompose(old(log), before, log);
    }

    /**
     InitializeDevice: whatever happened on the way, a success leaves an identified,
     initialised card. A failure has a reason: a fault, a card that stays busy, or one that
     the driver does not support.
     */
    method InitializeDevice() returns (status: Status)
      requires Valid() && attempts <= RECOVERY_THRESHOLD
      requires !slotInitialized && media.present
      modifies this, database, host
      ensures Valid() && attempts == old(attempts) && Since(old(Now()), Now())
      ensures status == Success ==>
                && slotInitialized && log != []
                && (info.function_ == Sd || info.function_ == Mmc)
                && media.blockSize == BLOCK_LENGTH && media.id == info.serial && media.removable == (info.function_ == Sd)
                && old(host.settings) + [ResetAll, IdentificationClock] <= host.settings
      ensures status != Success ==> Blamed(old(Now()), Now()) || Short(status, info)
      decreases RECOVERY_THRESHOLD + 1 - attempts, 15
    {
      hide Valid, Elsewhere, RcaArg, SwitchArg, Later, Recovering, WithReason, Since, Now, Face, Blamed, Short;
      info := NO_CARD.(speedMode := NormalSpeed);
      NowShows();
      status := PrepareHost();
      if status != Success {
        return;
      }
      ghost var prepared := Now();
      NowShows();
      status := QueryCardType();
      SinceTrans(old(Now()), prepared, Now());
      if status != Success {
        NoCardIsShort(info);
        return;
      }
      ghost var mid := Now();
      status := InitializeByType();
      SinceTrans(prepared, mid, Now());
      SinceTrans(old(Now()), prepared, Now());
      if status != Success {
        return;
      }
      mid := Now();
      status := SetBlockLengthAndNote();
      SinceTrans(prepared, mid, Now());
      SinceTrans(old(Now()), prepared, Now());
      NowShows();
    }

    /** SdhcSetBlockLength, and the media's record of the card. */
    method SetBlockLengthAndNote() returns (status: Status)
      requires Valid() && attempts <= RECOVERY_THRESHOLD && (info.function_ == Sd || info.function_ == Mmc)
      modifies this, database, host
      ensures Valid() && attempts == old(attempts) && Since(old(Now()), Now())
      ensures status == Success ==>
                && slotInitialized && log != [] && info == old(info)
                && media == old(media).(removable := info.function_ == Sd, id := info.serial)
                && old(log) <= log && NewCommands(old(log), log) == [Sent(SetBlockLength, BLOCK_LENGTH)]
      ensures status != Success ==> Blamed(old(Now()), Now())
      decreases RECOVERY_THRESHOLD + 1 - attempts, 6
    {
      hide Valid, Elsewhere, RcaArg, SwitchArg, NewCommands, Later, Recovering, WithReason, Since, Now, Face;
      FaceShows();
      status := Exchange(SetBlockLength, BLOCK_LENGTH);
      FaceShows();
      if status == Success {
        NoteCard();
      }
    }

    /** Reset of the host controller, and its identification clock. */
    method PrepareHost() returns (status: Status)
      requires Valid()
      modifies host`settings, host`trouble
      ensures Valid() && Since(old(Now()), Now())
      ensures status == Success ==> host.settings == old(host.settings) + [ResetAll, IdentificationClock]
      ensures status != Success ==> Blamed(old(Now()), Now())
    {
      hide Valid, Elsewhere, RcaArg, SwitchArg, Later, Recovering, WithReason, Since, Now, Face;
      status := Configure(ResetAll);
      if status != Success {
        return;
      }
      ghost var mid := Now();
      status := Configure(IdentificationClock);
      SinceTrans(old(Now()), mid, Now());
    }

    /** The media's record of an initialised card. */
    method NoteCard()
      requires Valid() && log != [] && (info.function_ == Sd || info.function_ == Mmc)
      modifies this`media, this`slotInitialized
      ensures Valid() && slotInitialized && Now() == old(Now())
      ensures media == old(media).(removable := info.function_ == Sd, id := info.serial)
    {
      hide Elsewhere, OneRpmb, FromEnd;
      assert info.function_ == Sd || info.function_ == Mmc;
      media := media.(removable := info.function_ == Sd, id := info.serial);
      slotInitialized := true;
    }

    /** Only SD and MMC cards are supported. */
    method InitializeByType() returns (status: Status)
      requires Valid() && attempts <= RECOVERY_THRESHOLD && info.function_ != UnknownCard
      modifies this, database, host
      ensures Valid() && attempts == old(attempts) && Since(old(Now()), Now())
      ensures status == Success ==>
                && info.function_ == old(info.function_) && (info.function_ == Sd || info.function_ == Mmc)
                && media.blockSize == BLOCK_LENGTH && log != []
      ensures status == Success ==> recoveries == old(recoveries) && host.trouble == old(host.trouble)
      ensures status == Success ==>
                host.settings == old(host.settings) + [BusWidth(if info.function_ == Sd then 4 else 8), FullClock]
      ensures status == Success && info.function_ == Sd ==>
                && old(log) <= log
                && exists arg, polls: nat :: NewCommands(old(log), log) == PowerUpScript(arg, polls) + SdScript(info.rca)
      ensures status == Success && info.function_ == Mmc ==>
                old(log) <= log && exists powerClass :: NewCommands(old(log), log) == MmcScript(powerClass)
      ensures status != Success ==> Blamed(old(Now()), Now()) || Short(status, info)
      decreases RECOVERY_THRESHOLD + 1 - attempts, 14
    {
      hide Valid, Elsewhere, RcaArg, SwitchArg, NewCommands, PowerUpScript, SdScript, MmcScript, Later, Recovering, WithReason, Since;
      match info.function_ {
        case Sd =>
          ghost var arg, polls;
          status, arg, polls := InitializeSdDevice();
        case Mmc =>
          ghost var powerClass;
          status, powerClass := InitializeMmcDevice();
        case _ =>
          status := Unsupported;
          SinceNothing(Now());
      }
    }

    // ---------- Reset and published protocols ----------

    method UninstallBlockIo() returns (status: Status)
      requires Valid() && blockIoInstalled
      modifies this`blockIoInstalled, database
      ensures Valid() && OthersKept(old(Now()), Now())
      ensures blockIoInstalled <==> status != Success
      ensures Unrefused(old(Now()), Now()) <==> status == Success
    {
      status := database.Uninstall(handle, BlockIo);
      if status == Success {
        blockIoInstalled := false;
      }
    }

    method UninstallRpmbIo() returns (status: Status)
      requires Valid() && rpmbInstalled
      modifies this`rpmbInstalled, database
      ensures Valid() && OthersKept(old(Now()), Now())
      ensures rpmbInstalled <==> status != Success
      ensures Unrefused(old(Now()), Now()) <==> status == Success
    {
      status := database.Uninstall(handle, RpmbIo);
      if status == Success {
        rpmbInstalled := false;
      }
    }

    method UninstallDevicePath() returns (status: Status)
      requires Valid() && devicePathInstalled
      modifies this`devicePathInstalled, database
      ensures Valid() && OthersKept(old(Now()), Now())
      ensures devicePathInstalled <==> status != Success
      ensures Unrefused(old(Now()), Now()) <==> status == Success
    {
      status := database.Uninstall(handle, DevicePath);
      if status == Success {
        devicePathInstalled := false;
      }
    }

    /** Withdraws what is published, in the source's order, stopping at the first failure. */
    method UninstallAllProtocols() returns (status: Status)
      requires Valid()
      modifies this`blockIoInstalled, this`rpmbInstalled, this`devicePathInstalled, database
      ensures Valid() && OthersKept(old(Now()), Now())
      ensures status == Success <==> Flags() == NOTHING
      ensures Unrefused(old(Now()), Now()) <==> status == Success
    {
      hide Valid, Elsewhere;
      status := Success;
      if blockIoInstalled {
        status := UninstallBlockIo();
      }
      if status == Success && rpmbInstalled {
        status := UninstallRpmbIo();
      }
      if status == Success && devicePathInstalled {
        status := UninstallDevicePath();
      }
    }

    method InstallBlockIo() returns (status: Status)
      requires Valid()
      modifies this`blockIoInstalled, database
      ensures Valid() && OthersKept(old(Now()), Now())
      ensures blockIoInstalled == (old(blockIoInstalled) || status == Success)
      ensures old(blockIoInstalled) ==> status != Success
      ensures status != Success ==> old(blockIoInstalled) || !Unrefused(old(Now()), Now())
      ensures RpmbSomewhere(database.installed) == old(RpmbSomewhere(database.installed))
    {
      status := database.Install(handle, BlockIo);
      if status == Success {
        blockIoInstalled := true;
      }
    }

    method InstallDevicePath() returns (status: Status)
      requires Valid()
      modifies this`devicePathInstalled, database
      ensures Valid() && OthersKept(old(Now()), Now())
      ensures devicePathInstalled == (old(devicePathInstalled) || status == Success)
      ensures old(devicePathInstalled) ==> status != Success
      ensures status != Success ==> old(devicePathInstalled) || !Unrefused(old(Now()), Now())
      ensures RpmbSomewhere(database.installed) == old(RpmbSomewhere(database.installed))
    {
      status := database.Install(handle, DevicePath);
      if status == Success {
        devicePathInstalled := true;
      }
    }

    /** RpmbIo goes to one card of the system only; a card that gets it has its current partition on record. */
    method InstallRpmbIo() returns (status: Status)
      requires Valid()
      modifies this`rpmbInstalled, this`currentPartition, database
      ensures Valid() && OthersKept(old(Now()), Now())
      ensures status == Success ==> RpmbSomewhere(database.installed)
      ensures old(RpmbSomewhere(database.installed)) ==> status == Success && rpmbInstalled == old(rpmbInstalled)
      ensures !old(RpmbSomewhere(database.installed)) ==> rpmbInstalled == (old(rpmbInstalled) || status == Success)
      ensures rpmbInstalled && !old(rpmbInstalled) ==> currentPartition == Access(info.ext.partitionConfig)
      ensures status != Success ==> !Unrefused(old(Now()), Now())
    {
      hide Elsewhere, FromEnd;
      ElsewhereInstalled(database.installed, handle, RpmbIo);
      var found := database.IsRpmbInstalledOnTheSystem();
      if found {
        return Success;
      }
      assert (handle, RpmbIo) !in database.installed;
      status := database.Install(handle, RpmbIo);
      if status == Success {
        rpmbInstalled := true;
        currentPartition := Access(info.ext.partitionConfig);
        assert (handle, RpmbIo) in database.installed;
      }
    }

    lemma PartitionFits()
      requires Valid()
      ensures currentPartition < 8
    {
    }

    lemma OwnRpmbFound()
      requires Valid()
      ensures rpmbInstalled ==> RpmbSomewhere(database.installed)
    {
      if rpmbInstalled {
        assert (handle, RpmbIo) in database.installed;
      }
    }

    /** Publishing after a successful initialisation. */
    method PublishProtocols() returns (status: Status, ghost a: Answers)
      requires Valid()
      modifies this`blockIoInstalled, this`rpmbInstalled, this`devicePathInstalled, this`currentPartition, database
      ensures Valid() && OthersKept(old(Now()), Now())
      ensures Report(status, Flags()) == Publishing(old(Flags()), info.function_ == Mmc, old(RpmbSomewhere(database.installed)), a)
      ensures Consistent(old(Flags()), old(RpmbSomewhere(database.installed)), a)
      ensures status == Success && info.function_ == Mmc ==> RpmbSomewhere(database.installed)
      ensures rpmbInstalled && !old(rpmbInstalled) ==> currentPartition == Access(info.ext.partitionConfig)
      ensures status != Success ==>
                old(blockIoInstalled) || old(devicePathInstalled) || !Unrefused(old(Now()), Now())
    {
      OwnRpmbFound();
      hide Valid, Elsewhere, RpmbSomewhere, Now, Access;
      NowShows();
      status := InstallBlockIo();
      a := Answers(status, status, status);
      if status == Success {
        status := InstallDevicePath();
        a := a.(devicePath := status);
      }
      if status == Success && info.function_ == Mmc {
        status := InstallRpmbIo();
        a := a.(rpmb := status);
      }
    }

    /**
     SoftReset up to its Exit label. It asks once whether there is a card and, with one,
     whether it is write-protected; a failure has a reason.
     */
    method ResetAndInitialize() returns (status: Status)
      requires Valid() && attempts <= RECOVERY_THRESHOLD
      modifies this, database, host
      ensures Valid() && attempts == old(attempts) && Grown(old(Now()), Now()) && WithReason(old(Now()), Now())
      ensures status == Success ==> blockIoInstalled
      ensures status == Success && media.present ==>
                slotInitialized && devicePathInstalled && (info.function_ == Sd || info.function_ == Mmc) && media.blockSize == BLOCK_LENGTH
      ensures status == Success && !media.present && Unreset(old(Now()), Now()) ==>
                !slotInitialized && Flags() == NOTHING.(blockIo := true)
      ensures Unrefused(old(Now()), Now()) && Unreset(old(Now()), Now()) ==> AskedForCard(old(Now()), Now())
      ensures status != Success ==>
                Blamed(old(Now()), Now()) || !Unrefused(old(Now()), Now()) || (media.present && Short(status, info))
      ensures status != Success && Unrefused(old(Now()), Now()) && Unreset(old(Now()), Now()) ==> Flags() == NOTHING
      decreases RECOVERY_THRESHOLD + 1 - attempts, 17
    {
      hide Valid, Elsewhere, RcaArg, SwitchArg, Grown, Later, WithReason, Since, Now, Blamed, Short;
      NowShows();
      status := UninstallAllProtocols();
      ghost var withdrawn := Now();
      NowShows();
      KeptGrown(old(Now()), withdrawn);
      if status != Success {
        return;
      }
      ClearMedia();
      ghost var cleared := Now();
      NowShows();
      AskedGrown(withdrawn, cleared);
      GrownTrans(old(Now()), withdrawn, cleared);
      if !media.present {
        status := InstallBlockIo();
        KeptGrown(cleared, Now());
      } else {
        status := InitializeAndPublish();
      }
      NowShows();
      GrownTrans(old(Now()), cleared, Now());
    }

    /** The slot is not initialised any more, and its media are what the host controller says of the card. */
    method ClearMedia()
      requires Valid()
      modifies this`slotInitialized, this`media, host`presence, host`protection
      ensures Valid() && !slotInitialized && AskedForCard(old(Now()), Now())
      ensures Now() == old(Now()).(presence := host.presence, protection := host.protection, standing := Now().standing)
      ensures old(host.presence) <= host.presence && old(host.protection) <= host.protection
      ensures media.blockSize == media.lastBlock == media.id == 0 && !media.removable
    {
      hide Elsewhere, OneRpmb, FromEnd;
      slotInitialized := false;
      var present := host.IsCardPresent();
      media := Media(present, 0, false, false, 0, 0);
      if media.present {
        var readOnly := host.IsReadOnly();
        media := media.(readOnly := readOnly);
      }
    }

    /** With a card in the slot: the initialisation, the device path's text for the log, and the protocols. */
    method InitializeAndPublish() returns (status: Status)
      requires Valid() && attempts <= RECOVERY_THRESHOLD && !slotInitialized && media.present && Flags() == NOTHING
      modifies this, database, host
      ensures Valid() && attempts == old(attempts) && Grown(old(Now()), Now()) && WithReason(old(Now()), Now())
      ensures status == Success ==>
                && blockIoInstalled && devicePathInstalled
                && slotInitialized && (info.function_ == Sd || info.function_ == Mmc) && media.blockSize == BLOCK_LENGTH
      ensures Unreset(old(Now()), Now()) ==>
                && Now().presence == old(Now()).presence && Now().protection == old(Now()).protection
                && media.present && media.readOnly == old(media.readOnly)
      ensures status != Success ==>
                Blamed(old(Now()), Now()) || !Unrefused(old(Now()), Now()) || (media.present && Short(status, info))
      ensures status != Success && Unrefused(old(Now()), Now()) && Unreset(old(Now()), Now()) ==> Flags() == NOTHING
      decreases RECOVERY_THRESHOLD + 1 - attempts, 16
    {
      hide Valid, Elsewhere, RcaArg, SwitchArg, Grown, Later, WithReason, Since, Now, Short;
      NowShows();
      status := InitializeDevice();
      ghost var initialized := Now();
      NowShows();
      SinceGrown(old(Now()), initialized);
      if status != Success {
        return;
      }
      status := LogAndPublish();
      NowShows();
      KeptGrown(initialized, Now());
      GrownTrans(old(Now()), initialized, Now());
    }

    method LogAndPublish() returns (status: Status)
      requires Valid()
      modifies this`blockIoInstalled, this`rpmbInstalled, this`devicePathInstalled, this`currentPartition, database
      ensures Valid() && OthersKept(old(Now()), Now())
      ensures status == Success ==> blockIoInstalled && devicePathInstalled
      ensures status != Success ==> !Unrefused(old(Now()), Now()) || old(Flags()) != NOTHING
    {
      hide Valid, Elsewhere, Now;
      NowShows();
      status := ConvertDevicePath();
      if status != Success {
        return;
      }
      ghost var answers;
      status, answers := PublishProtocols();
    }

    method ConvertDevicePath() returns (status: Status)
      requires Valid()
      modifies database`refusals
      ensures Valid() && OthersKept(old(Now()), Now())
      ensures Unrefused(old(Now()), Now()) <==> status == Success
    {
      hide Elsewhere, OneRpmb, FromEnd;
      var converted := database.ConvertDevicePathToText();
      status := if converted then Success else OutOfResources;
    }

    /**
     SoftReset. With a card present, a success that leaves the device path published is
     one: the card is initialised. Without the device path it covers up a failure.
     */
    method SoftReset() returns (status: Status)
      requires Valid() && attempts <= RECOVERY_THRESHOLD
      modifies this, database, host
      ensures Valid() && attempts == old(attempts) && Later(old(Now()), Now()) && softResets > old(softResets)
      ensures recoveries > old(recoveries) ==> Troubled(old(Now()), Now())
      ensures softResets > old(softResets) + 1 ==> Faulted(old(Now()), Now())
      ensures Unrefused(old(Now()), Now()) && softResets == old(softResets) + 1 ==> AskedForCard(old(Now()), Now())
      ensures status == Success && media.present && devicePathInstalled ==>
                blockIoInstalled && slotInitialized && (info.function_ == Sd || info.function_ == Mmc) && media.blockSize == BLOCK_LENGTH
      ensures Unrefused(old(Now()), Now()) && !Blamed(old(Now()), Now()) ==>
                if !media.present then status == Success && Flags() == NOTHING.(blockIo := true) && !slotInitialized
                else (status == Success && devicePathInstalled) || (Short(status, info) && !devicePathInstalled && !rpmbInstalled)
      decreases RECOVERY_THRESHOLD + 1 - attempts, 19
    {
      hide Valid, Elsewhere, IsCardStatusError, HasBit, Later, Troubled, Short;
      ghost var exit, rpmb, path;
      status, exit, rpmb, path := SoftResetReporting();
    }

    /** SoftReset, telling also how things stood at its Exit label, and the database's answers to the withdrawals made there. */
    method SoftResetReporting() returns (status: Status, ghost exit: Report, ghost rpmb: Status, ghost path: Status)
      requires Valid() && attempts <= RECOVERY_THRESHOLD
      modifies this, database, host
      ensures Valid() && attempts == old(attempts) && Later(old(Now()), Now()) && softResets > old(softResets)
      ensures recoveries > old(recoveries) ==> Troubled(old(Now()), Now())
      ensures softResets > old(softResets) + 1 ==> Faulted(old(Now()), Now())
      ensures Unrefused(old(Now()), Now()) && softResets == old(softResets) + 1 ==> AskedForCard(old(Now()), Now())
      ensures Report(status, Flags()) == Withdrawing(exit, rpmb, path)
      ensures exit.status == Success ==> blockIoInstalled
      ensures exit.status == Success && media.present ==>
                slotInitialized && devicePathInstalled && (info.function_ == Sd || info.function_ == Mmc) && media.blockSize == BLOCK_LENGTH
      ensures exit.status == Success && !media.present && softResets == old(softResets) + 1 ==>
                !slotInitialized && Flags() == NOTHING.(blockIo := true)
      ensures exit.status != Success ==>
                Blamed(old(Now()), Now()) || !Unrefused(old(Now()), Now()) || (media.present && Short(exit.status, info))
      ensures exit.status != Success ==>
                (!rpmbInstalled && !devicePathInstalled) || !Unrefused(old(Now()), Now())
      ensures status == Success && media.present ==> (exit.status == Success <==> devicePathInstalled)
      ensures exit.status != Success && Unrefused(old(Now()), Now()) && softResets == old(softResets) + 1 ==>
                status == exit.status
      decreases RECOVERY_THRESHOLD + 1 - attempts, 18
    {
      hide Valid, Elsewhere, RcaArg, SwitchArg, Later, Grown, WithReason, Since, Now, Troubled, Short, AskedForCard;
      NowShows();
      CountReset();
      ghost var begun := Now();
      status := ResetAndInitialize();
      exit, rpmb, path := Report(status, Flags()), Success, Success;
      ghost var reached := Now();
      NowShows();
      if status != Success {
        status, rpmb, path := WithdrawCardDependent(status);
      }
      NowShows();
      KeptGrown(reached, Now());
      GrownTrans(begun, reached, Now());
      ResetStarted(old(Now()), begun, Now());
      AskedKept(begun, reached, Now());
    }

    method CountReset()
      requires Valid()
      modifies this`softResets
      ensures Valid() && Now() == old(Now()).(softResets := old(softResets) + 1)
    {
      hide Elsewhere, OneRpmb, FromEnd;
      softResets := softResets + 1;
    }

    /** RpmbIo and the device path are withdrawn after a failure; the last answer replaces the status. */
    method WithdrawCardDependent(failure: Status) returns (status: Status, ghost rpmb: Status, ghost path: Status)
      requires Valid() && failure != Success
      modifies this`rpmbInstalled, this`devicePathInstalled, database
      ensures Valid() && OthersKept(old(Now()), Now())
      ensures Report(status, Flags()) == Withdrawing(Report(failure, old(Flags())), rpmb, path)
      ensures (!rpmbInstalled && !devicePathInstalled) || !Unrefused(old(Now()), Now())
    {
      hide Valid, Elsewhere, Now;
      status, rpmb, path := failure, Success, Success;
      if rpmbInstalled {
        status := UninstallRpmbIo();
        rpmb := status;
      }
      if devicePathInstalled {
        status := UninstallDevicePath();
        path := status;
      }
    }

    /** What CheckCardsCallback does with one slot. */
    method CheckCard()
      requires Valid() && attempts <= RECOVERY_THRESHOLD
      modifies this, database, host
      ensures Valid() && attempts == old(attempts) && Now().others == old(Now()).others
      ensures Checked(old(Now()), old(Card()), Now(), Card())
    {
      hide Valid, Elsewhere, RcaArg, SwitchArg, Since, WithReason, Recovering, AskedForCard, Short, Blamed, Faulted, Troubled;
      var present := host.IsCardPresent();
      if media.present != present {
        ghost var asked := Now();
        var ignored := SoftReset();
        assert Later(asked, Now());
      }
    }

    // ---------- Replay-protected memory ----------

    /** A multi-block transfer of RPMB packets with its block count set: it is never stopped. */
    method CountedTransfer(cmd: Command, packets: nat, reliable: bool) returns (status: Status)
      requires Valid() && attempts <= RECOVERY_THRESHOLD && cmd.IsMultiBlock()
      modifies this, database, host
      ensures Valid() && attempts == old(attempts) && Since(old(Now()), Now())
      ensures status != Success ==> Blamed(old(Now()), Now())
      ensures status == Success ==> info == old(info) && Face() == old(Face()).(moved := old(host.moved) + [cmd])
      ensures status == Success ==> old(log) <= log && NewCommands(old(log), log) == Counted(cmd, packets, reliable)
    {
      hide Valid, Elsewhere, RcaArg, SwitchArg, Later, Recovering, WithReason, Since, Now, Face, InTransferState, Polls, BlockCountArg, NewCommands, Commands, Command.IsMultiBlock;
      ghost var polls, transferred, stopped;
      var count := Sent(SetBlockCount, BlockCountArg(packets, reliable));
      Kinds(cmd);
      FaceShows();
      status, polls := SendCommand(count.cmd, count.arg);
      if status != Success {
        return;
      }
      NewCommandsOf(old(log), [count], info.rca, polls);
      CommandsOfOne(count);
      assert Polls(info.rca, polls) == [];
      ghost var before, mid := log, Now();
      FaceShows();
      status, transferred, stopped, polls := SendDataCommand(cmd, 0);
      SinceTrans(old(Now()), mid, Now());
      if status != Success {
        return;
      }
      assert !stopped && log == before + [Sent(cmd, 0)] + Polls(info.rca, polls);
      NewCommandsOf(before, [Sent(cmd, 0)], info.rca, polls);
      CommandsOfOne(Sent(cmd, 0));
      NewCommandsCompose(old(log), before, log);
    }

    /** RpmbRead: a request of one packet, and the response packets. */
    method RpmbRead(packets: nat) returns (status: Status)
      requires Valid() && attempts <= RECOVERY_THRESHOLD
      modifies this, database, host
      ensures Valid() && attempts == old(attempts) && Since(old(Now()), Now())
      ensures status != Success ==> Blamed(old(Now()), Now())
      ensures status == Success ==> info == old(info) && Face() == old(Face()).(moved := old(host.moved) + [WriteMultiBlock, ReadMultiBlock])
      ensures status == Success ==> old(log) <= log && NewCommands(old(log), log) == ReadScript(packets)
    {
      hide Valid, Elsewhere, RcaArg, SwitchArg, Later, Recovering, WithReason, Since, Now, Face, NewCommands, Counted;
      status := CountedTransfer(WriteMultiBlock, 1, false);
      if status == Success {
        ghost var before, mid := log, Now();
        FaceShows();
        status := CountedTransfer(ReadMultiBlock, packets, false);
        SinceTrans(old(Now()), mid, Now());
        if status == Success {
          NewCommandsCompose(old(log), before, log);
        }
      }
    }

    /** RpmbWrite: a reliable write of the request packets. */
    method RpmbWrite(packets: nat) returns (status: Status)
      requires Valid() && attempts <= RECOVERY_THRESHOLD
      modifies this, database, host
      ensures Valid() && attempts == old(attempts) && Since(old(Now()), Now())
      ensures status != Success ==> Blamed(old(Now()), Now())
      ensures status == Success ==> info == old(info) && Face() == old(Face()).(moved := old(host.moved) + [WriteMultiBlock])
      ensures status == Success ==> old(log) <= log && NewCommands(old(log), log) == Counted(WriteMultiBlock, packets, true)
    {
      hide Valid, Elsewhere, RcaArg, SwitchArg, Later, Recovering, WithReason, Since, Now, Face, NewCommands, Counted;
      status := CountedTransfer(WriteMultiBlock, packets, true);
    }

    /** A write of request packets, and a read of the one-packet result. */
    method RpmbWriteAndQuery(packets: nat) returns (status: Status)
      requires Valid() && attempts <= RECOVERY_THRESHOLD
      modifies this, database, host
      ensures Valid() && attempts == old(attempts) && Since(old(Now()), Now())
      ensures status != Success ==> Blamed(old(Now()), Now())
      ensures status == Success ==> info == old(info) && Face() == old(Face()).(moved := old(host.moved) + [WriteMultiBlock, WriteMultiBlock, ReadMultiBlock])
      ensures status == Success ==>
                old(log) <= log && NewCommands(old(log), log) == Counted(WriteMultiBlock, packets, true) + ReadScript(1)
    {
      hide Valid, Elsewhere, RcaArg, SwitchArg, Later, Recovering, WithReason, Since, Now, Face, NewCommands, Counted, ReadScript;
      status := RpmbWrite(packets);
      if status == Success {
        ghost var before, mid := log, Now();
        FaceShows();
        status := RpmbRead(1);
        SinceTrans(old(Now()), mid, Now());
        if status == Success {
          NewCommandsCompose(old(log), before, log);
        }
      }
    }

    /** The request itself, with the RPMB partition selected. */
    method RpmbTransact(request: RpmbRequestType, requestPackets: nat, responsePackets: nat) returns (status: Status)
      requires Valid() && attempts <= RECOVERY_THRESHOLD
      modifies this, database, host
      ensures Valid() && attempts == old(attempts) && Since(old(Now()), Now())
      ensures status != Success ==> Blamed(old(Now()), Now())
      ensures status == Success ==> info == old(info) && Face() == old(Face()).(moved := host.moved)
      ensures status == Success ==>
                old(log) <= log && NewCommands(old(log), log) == RpmbScript(request, requestPackets, responsePackets)
    {
      hide Valid, Elsewhere, RcaArg, SwitchArg, Later, Recovering, WithReason, Since, Now, Face, NewCommands, Counted, ReadScript;
      match request {
        case ProgramKey =>
          status := RpmbWriteAndQuery(1);
        case ReadCounter =>
          status := RpmbRead(1);
        case AuthenticatedRead =>
          status := RpmbRead(responsePackets);
        case AuthenticatedWrite =>
          status := RpmbWriteAndQuery(requestPackets);
      }
      FaceShows();
    }

    /**
     RpmbRequest: switch to the RPMB partition, make the request, switch back. Whenever
     the switch back succeeds the partition is the one from before - also if the card
     was reset in between. A success means that it did, that no recovery ran, and that
     the card accepted exactly the scripted commands; `config` is the partition
     configuration it reported in between.
     */
    method RpmbRequest(request: RpmbRequestType, requestPackets: nat, responsePackets: nat)
      returns (status: Status, ghost switched: bool, ghost restored: bool, ghost config: byte)
      requires Valid() && attempts <= RECOVERY_THRESHOLD
      modifies this, database, host
      ensures Valid() && attempts == old(attempts) && Since(old(Now()), Now())
      ensures status != Success ==>
                Blamed(old(Now()), Now())
                || (status == DeviceError && Access(info.ext.partitionConfig) != if switched then old(currentPartition) else PARTITION_RPMB)
      ensures switched ==>
                exists k, c: byte :: |old(host.tried)| < k < |host.tried|
                  && host.tried[k] == Sent(SwitchMmc, SwitchArg(EXT_CSD_PARTITION_CONFIG, WithAccess(c, old(currentPartition))))
      ensures restored ==> currentPartition == old(currentPartition) && Access(info.ext.partitionConfig) == old(currentPartition)
      ensures !switched ==> status != Success && !restored
      ensures status == Success ==> switched && restored && recoveries == old(recoveries)
      ensures status == Success ==>
                && old(log) <= log && Access(config) == PARTITION_RPMB
                && NewCommands(old(log), log) ==
                   SwitchScript(old(info.ext.partitionConfig), PARTITION_RPMB, info.rca)
                   + RpmbScript(request, requestPackets, responsePackets)
                   + SwitchScript(config, old(currentPartition), info.rca)
    {
      hide Valid, Elsewhere, RcaArg, SwitchArg, Later, Recovering, WithReason, Since, Now, Face, NewCommands, SwitchScript, RpmbScript, Access, WithAccess;
      PartitionFits();
      var partition := currentPartition;
      switched, restored, config := false, false, 0;
      NowShows();
      var switchStatus := SwitchPartitionMmc(PARTITION_RPMB);
      if switchStatus != Success {
        return switchStatus, false, false, config;
      }
      switched, config := true, info.ext.partitionConfig;
      ghost var selected, mid := log, Now();
      NowShows();
      FaceShows();
      status := RpmbTransact(request, requestPackets, responsePackets);
      ghost var requested, asked := log, Now();
      NowShows();
      FaceShows();
      SinceTrans(old(Now()), mid, asked);
      ghost var c := info.ext.partitionConfig;
      switchStatus := SwitchPartitionMmc(partition);
      SinceTrans(old(Now()), asked, Now());
      NowShows();
      assert host.tried[|asked.tried|] == Sent(SwitchMmc, SwitchArg(EXT_CSD_PARTITION_CONFIG, WithAccess(c, partition)));
      restored := switchStatus == Success;
      if status == Success {
        status := switchStatus;
        if restored {
          NewCommandsCompose(selected, requested, log);
          NewCommandsCompose(old(log), selected, log);
        }
      }
    }
  }

  // ---------- All slots ----------

  /** The instances of a system: distinct objects on distinct handles, sharing one database, each in order. */
  ghost predicate SystemValid(pool: seq<SdhcInstance>, database: ProtocolDatabase)
    reads pool, database
  {
    && (forall i :: 0 <= i < |pool| ==> pool[i].database == database && pool[i].Valid() && pool[i].attempts == 0)
    && (forall i, j :: 0 <= i < j < |pool| ==> pool[i] != pool[j] && pool[i].handle != pool[j].handle && pool[i].host != pool[j].host)
  }

  /** Published RpmbIo instances. */
  lemma {:induction false} AtMostOneRpmb(pool: seq<SdhcInstance>, database: ProtocolDatabase, i: nat, j: nat)
    requires SystemValid(pool, database) && i < |pool| && j < |pool|
    requires pool[i].rpmbInstalled && pool[j].rpmbInstalled
    ensures i == j
  {
    assert (pool[i].handle, RpmbIo) in database.installed && (pool[j].handle, RpmbIo) in database.installed;
  }

  ghost function Hosts(pool: seq<SdhcInstance>): set<HostController>
    reads pool
  {
    set i | 0 <= i < |pool| :: pool[i].host
  }

  /**
   CheckCardsCallback: each slot is asked for its card, and reset if and only if the
   answer differs from its media's record. Whatever the cards and the host controllers
   do, every Installed flag stays true to the database and at most one instance carries
   RpmbIo.
   */
  method CheckCardsCallback(pool: seq<SdhcInstance>, database: ProtocolDatabase)
    requires SystemValid(pool, database)
    modifies pool, database, Hosts(pool)
    ensures SystemValid(pool, database)
    ensures forall i :: 0 <= i < |pool| ==>
              Checked(old(pool[i].Now()), old(pool[i].Card()), pool[i].Now(), pool[i].Card())
  {
    hide Elsewhere, SdhcInstance.Card, Checked, FromEnd;
    for k := 0 to |pool|
      invariant SystemValid(pool, database)
      invariant forall i :: 0 <= i < k ==> Checked(old(pool[i].Now()), old(pool[i].Card()), pool[i].Now(), pool[i].Card())
      invariant forall i :: k <= i < |pool| ==> OnlyOthers(old(pool[i].Now()), pool[i].Now()) && pool[i].Card() == old(pool[i].Card())
    {
      ghost var before := database.installed;
      label Before:
      pool[k].CheckCard();
      CheckedLater(old(pool[k].Now()), old@Before(pool[k].Now()), old(pool[k].Card()), pool[k].Now(), pool[k].Card());
      forall i | 0 <= i < |pool| && i != k
        ensures pool[i].Valid() && OnlyOthers(old@Before(pool[i].Now()), pool[i].Now())
      {
        assert pool[i].Valid() by {
          assert old@Before(pool[i].Valid());
          SameElsewhere(before, database.installed, pool[k].handle, pool[i].handle);
        }
      }
      forall i | 0 <= i < k
        ensures Checked(old(pool[i].Now()), old(pool[i].Card()), pool[i].Now(), pool[i].Card())
      {
        CheckedStays(old(pool[i].Now()), old(pool[i].Card()), old@Before(pool[i].Now()), pool[i].Now(), pool[i].Card());
      }
    }
  }
}
