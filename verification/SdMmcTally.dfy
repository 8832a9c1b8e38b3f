/**
 What an operation of the command engine may have done when it returns: tallies of an
 instance and how they grow, the reasons for a failure, and how a reset's outcome is
 reported.
 */
module SdMmcTally {
  import opened Bytes
  import opened Options
  import opened SdMmcCommands
  import opened SdMmcHost
  import opened SdMmcScripts

  const RECOVERY_THRESHOLD: nat := 3
  const POLL_WAIT_COUNT: nat := 200

  // ---------- What a call leaves behind ----------

  datatype Media = Media(present: bool, id: word, removable: bool, readOnly: bool, blockSize: nat, lastBlock: nat)

  /** Which protocols of an instance are published. */
  datatype Published = Published(blockIo: bool, devicePath: bool, rpmb: bool)

  const NOTHING: Published := Published(false, false, false)

  /** What only a reset changes. */
  datatype Standing = Standing(published: Published, present: bool, readOnly: bool)

  /** What has been done and has happened so far, `others` being the registrations of other handles. */
  datatype Tally = Tally(
    log: seq<Sent>, others: set<Registration>,
    trouble: Trouble, refusals: nat, recoveries: nat, softResets: nat,
    tried: seq<Sent>, lineResets: seq<LineReset>, settings: seq<Setting>, presence: seq<bool>, protection: seq<bool>,
    standing: Standing)

  ghost predicate Faulted(a: Tally, b: Tally)
  {
    a.trouble.faults < b.trouble.faults
  }

  /** A call from `a` to `b` has a reason to fail: a fault, or a card that never was ready in 200 polls. */
  ghost predicate Blamed(a: Tally, b: Tally)
  {
    Faulted(a, b) || |a.tried| + POLL_WAIT_COUNT <= |b.tried|
  }

  /** A probed card has not answered. */
  ghost predicate Silent(a: Tally, b: Tally)
  {
    a.trouble.silences < b.trouble.silences
  }

  ghost predicate Troubled(a: Tally, b: Tally)
  {
    Blamed(a, b) || Silent(a, b)
  }

  /** No soft reset. */
  ghost predicate Unreset(a: Tally, b: Tally)
  {
    a.softResets == b.softResets
  }

  /** From `a` to `b` nothing is forgotten and other handles are untouched. */
  ghost predicate Grown(a: Tally, b: Tally)
  {
    && a.log <= b.log && b.others == a.others
    && a.trouble.faults <= b.trouble.faults && a.trouble.silences <= b.trouble.silences && a.refusals <= b.refusals
    && a.recoveries <= b.recoveries && a.softResets <= b.softResets
    && a.tried <= b.tried && a.lineResets <= b.lineResets && a.settings <= b.settings
    && a.presence <= b.presence && a.protection <= b.protection
  }

  /** Moreover, without a soft reset the same is published, and whether there is a card is not asked. */
  ghost predicate Later(a: Tally, b: Tally)
  {
    && Grown(a, b)
    && (b.softResets == a.softResets ==> b.standing == a.standing && b.presence == a.presence && b.protection == a.protection)
  }

  /** Lines are reset in a recovery only; soft resets are part of recoveries in which something failed. */
  ghost predicate Recovering(a: Tally, b: Tally)
  {
    && (b.recoveries == a.recoveries ==> b.lineResets == a.lineResets)
    && (b.softResets > a.softResets ==> Faulted(a, b) && b.recoveries > a.recoveries)
  }

  /** Nor is there a recovery without trouble. */
  ghost predicate WithReason(a: Tally, b: Tally)
  {
    Recovering(a, b) && (b.recoveries > a.recoveries ==> Troubled(a, b))
  }

  ghost predicate Since(a: Tally, b: Tally)
  {
    Later(a, b) && WithReason(a, b)
  }

  lemma {:induction false} GrownTrans(a: Tally, b: Tally, c: Tally)
    requires Grown(a, b) && Grown(b, c)
    ensures Grown(a, c)
    ensures Faulted(a, b) || Faulted(b, c) ==> Faulted(a, c)
    ensures Blamed(a, b) || Blamed(b, c) ==> Blamed(a, c)
    ensures Troubled(a, b) || Troubled(b, c) ==> Troubled(a, c)
    ensures a.softResets <= b.softResets <= c.softResets && a.recoveries <= b.recoveries <= c.recoveries
    ensures a.refusals <= b.refusals <= c.refusals
    ensures a.log <= b.log <= c.log && a.tried <= b.tried <= c.tried && a.settings <= b.settings <= c.settings
    ensures WithReason(a, b) && WithReason(b, c) ==> WithReason(a, c)
  {
  }

  lemma {:induction false} SinceTrans(a: Tally, b: Tally, c: Tally)
    requires Since(a, b) && Since(b, c)
    ensures Since(a, c)
    ensures Faulted(b, c) ==> Faulted(a, c)
    ensures Blamed(a, b) || Blamed(b, c) ==> Blamed(a, c)
    ensures Silent(b, c) ==> Silent(a, c)
    ensures a.softResets <= b.softResets <= c.softResets && a.recoveries <= b.recoveries <= c.recoveries
    ensures a.log <= b.log <= c.log && a.tried <= b.tried <= c.tried && a.settings <= b.settings <= c.settings
  {
    GrownTrans(a, b, c);
  }

  /** A call that met trouble, and its recovery. */
  lemma {:induction false} SinceRecovery(a: Tally, b: Tally, c: Tally)
    requires Since(a, b) && Troubled(a, b) && Later(b, c) && Recovering(b, c) && b.recoveries < c.recoveries
    ensures Since(a, c) && Troubled(a, c)
    ensures a.softResets <= b.softResets <= c.softResets && a.recoveries <= b.recoveries < c.recoveries && b.tried <= c.tried
    ensures Faulted(a, b) ==> Faulted(a, c)
    ensures Blamed(a, b) ==> Blamed(a, c)
    ensures Silent(a, b) ==> Silent(a, c)
  {
    GrownTrans(a, b, c);
  }

  /** A command handed over, and perhaps accepted. */
  lemma {:induction false} SinceSent(a: Tally, b: Tally, tried: seq<Sent>, accepted: seq<Sent>)
    requires b == a.(log := a.log + accepted, tried := a.tried + tried, trouble := b.trouble)
    requires a.trouble.faults <= b.trouble.faults && a.trouble.silences <= b.trouble.silences
    ensures Since(a, b)
  {
  }

  lemma {:induction false} SinceNothing(a: Tally)
    ensures Since(a, a)
  {
  }

  lemma {:induction false} LaterNothing(a: Tally)
    ensures Later(a, a)
  {
  }

  lemma {:induction false} LaterTrans(a: Tally, b: Tally, c: Tally)
    requires Later(a, b) && Later(b, c)
    ensures Grown(b, c) && Later(a, c)
    ensures Faulted(a, b) || Faulted(b, c) ==> Faulted(a, c)
    ensures a.softResets <= b.softResets <= c.softResets && a.recoveries <= b.recoveries <= c.recoveries
  {
    GrownTrans(a, b, c);
  }

  lemma {:induction false} LaterLines(a: Tally, b: Tally)
    requires b == a.(trouble := b.trouble, lineResets := b.lineResets) && a.lineResets <= b.lineResets
    requires a.trouble.faults <= b.trouble.faults && a.trouble.silences <= b.trouble.silences
    ensures Later(a, b)
  {
  }

  /** A recovery or a soft reset, counted before it is begun. */
  lemma {:induction false} LaterStarted(a: Tally, b: Tally, c: Tally)
    requires b == a.(recoveries := a.recoveries + 1) && (c == b || (Later(b, c) && (c.softResets > b.softResets ==> Faulted(b, c))))
    ensures Later(a, c) && Recovering(a, c) && a.recoveries < c.recoveries
  {
  }

  lemma {:induction false} ResetStarted(a: Tally, b: Tally, c: Tally)
    requires b == a.(softResets := a.softResets + 1) && Grown(b, c) && WithReason(b, c)
    ensures Later(a, c) && a.softResets < c.softResets
    ensures c.recoveries > a.recoveries ==> Troubled(a, c)
    ensures c.softResets > a.softResets + 1 ==> Faulted(a, c)
    ensures Blamed(b, c) ==> Blamed(a, c)
    ensures AskedForCard(b, c) ==> AskedForCard(a, c)
  {
  }

  /** The database has refused nothing that it had no reason to. */
  ghost predicate Unrefused(a: Tally, b: Tally)
  {
    a.refusals == b.refusals
  }

  /** Nothing but what is published of an instance has changed. */
  ghost predicate OthersKept(a: Tally, b: Tally)
  {
    b == a.(refusals := b.refusals, standing := a.standing.(published := b.standing.published)) && a.refusals <= b.refusals
  }

  lemma {:induction false} KeptGrown(a: Tally, b: Tally)
    requires OthersKept(a, b)
    ensures Grown(a, b) && WithReason(a, b)
  {
  }

  lemma {:induction false} SinceGrown(a: Tally, b: Tally)
    requires Since(a, b)
    ensures Grown(a, b) && Later(a, b) && WithReason(a, b) && a.softResets <= b.softResets
    ensures b.softResets > a.softResets ==> b.recoveries > a.recoveries
    ensures a.log <= b.log && a.tried <= b.tried
    ensures b.softResets == a.softResets ==> b.standing == a.standing && b.presence == a.presence && b.protection == a.protection
    ensures b.softResets > a.softResets ==> Faulted(a, b)
  {
  }

  /** A reset has asked once whether there is a card and, if so, whether it is write-protected; that is what the media says. */
  ghost predicate AskedForCard(a: Tally, b: Tally)
  {
    && b.presence == a.presence + [b.standing.present]
    && b.protection == a.protection + (if b.standing.present then [b.standing.readOnly] else [])
    && (b.standing.readOnly ==> b.standing.present)
  }

  lemma {:induction false} AskedKept(a: Tally, b: Tally, c: Tally)
    requires OthersKept(b, c)
    ensures AskedForCard(a, b) ==> AskedForCard(a, c)
  {
  }

  lemma {:induction false} AskedGrown(a: Tally, b: Tally)
    requires b == a.(presence := b.presence, protection := b.protection, standing := b.standing)
    requires a.presence <= b.presence && a.protection <= b.protection
    ensures Grown(a, b) && WithReason(a, b)
  {
  }

  /** A status, and what is published when it is returned. */
  datatype Report = Report(status: Status, published: Published)

  /** The database's answers to the installations of PublishProtocols, asked for one after the other. */
  datatype Answers = Answers(blockIo: Status, devicePath: Status, rpmb: Status)

  /** Publishing: BlockIo, the device path, and RpmbIo for an MMC card if nobody has it, up to the first failure. */
  function Publishing(p: Published, isMmc: bool, rpmbFound: bool, a: Answers): Report
  {
    if a.blockIo != Success then Report(a.blockIo, p)
    else if a.devicePath != Success then Report(a.devicePath, p.(blockIo := true))
    else if !isMmc || rpmbFound then Report(Success, p.(blockIo := true, devicePath := true))
    else if a.rpmb != Success then Report(a.rpmb, p.(blockIo := true, devicePath := true))
    else Report(Success, Published(true, true, true))
  }

  /** What is done at SoftReset's Exit label, given the database's answers to the withdrawals. */
  function Withdrawing(exit: Report, rpmb: Status, devicePath: Status): Report
  {
    var Report(status, p) := exit;
    if status == Success then exit
    else
      Report(if p.devicePath then devicePath else if p.rpmb then rpmb else status,
             p.(rpmb := p.rpmb && rpmb != Success, devicePath := p.devicePath && devicePath != Success))
  }

  /** A failed reset is reported as a success exactly when something card-dependent was published and its last withdrawal works. */
  lemma {:induction false} FailureMaskedExactly(exit: Report, rpmb: Status, devicePath: Status)
    requires exit.status != Success
    ensures var p, r := exit.published, Withdrawing(exit, rpmb, devicePath);
            && (r.status == Success <==> (p.devicePath || p.rpmb) && (if p.devicePath then devicePath else rpmb) == Success)
            && (r.status == Success ==> !r.published.devicePath && r.published.blockIo == p.blockIo)
  {
  }

  /** The database does not install a protocol twice, and finds an RpmbIo that is there. */
  predicate Consistent(p: Published, rpmbFound: bool, a: Answers)
  {
    && (p.blockIo ==> a.blockIo != Success)
    && (p.devicePath ==> a.devicePath != Success)
    && (p.rpmb ==> rpmbFound)
  }

  /**
   Whatever resets nested in the initialisation have published: a failing installation is
   reported as a success exactly when, with BlockIo and the device path installed, RpmbIo
   fails and the device path can be withdrawn; or, otherwise, when the last withdrawal of
   what a nested reset published works.
   */
  lemma {:induction false} PublishingMaskedExactly(p: Published, isMmc: bool, rpmbFound: bool, a: Answers, rpmb: Status, devicePath: Status)
    requires Consistent(p, rpmbFound, a)
    ensures var exit := Publishing(p, isMmc, rpmbFound, a);
            exit.status != Success && Withdrawing(exit, rpmb, devicePath).status == Success
            <==> if a.blockIo == Success && a.devicePath == Success
                 then isMmc && !rpmbFound && a.rpmb != Success && devicePath == Success
                 else if p.devicePath then devicePath == Success
                 else p.rpmb && rpmb == Success
  {
  }

  /**
   A nested reset has published BlockIo and the device path: the outer one cannot install
   BlockIo again, withdraws the device path, and reports success with only BlockIo left,
   for a card of any kind.
   */
  lemma {:induction false} MaskedNestedReset(isMmc: bool, rpmbFound: bool, rpmb: Status)
    ensures var p, a := NOTHING.(blockIo := true, devicePath := true), Answers(AlreadyStarted, AlreadyStarted, AlreadyStarted);
            var exit := Publishing(p, isMmc, rpmbFound, a);
            && Consistent(p, rpmbFound, a) && exit.status == AlreadyStarted
            && Withdrawing(exit, rpmb, Success) == Report(Success, NOTHING.(blockIo := true))
  {
  }

  /** With nothing published: RpmbIo cannot be installed; success is reported, and only BlockIo is left. */
  lemma {:induction false} MaskedReset(rpmb: Status)
    ensures var exit := Publishing(NOTHING, true, false, Answers(Success, Success, OutOfResources));
            && exit.status == OutOfResources
            && Withdrawing(exit, rpmb, Success) == Report(Success, NOTHING.(blockIo := true))
  {
  }

  /** What a call that runs into no error leaves alone; `tally` leaves out the commands. */
  datatype Surface = Surface(media: Media, slotInitialized: bool, installed: set<Registration>, partition: byte, moved: seq<Command>, tally: Tally)

  /** What is on record of the card. */
  datatype Record = Record(info: CardInfo, media: Media, slotInitialized: bool, partition: byte)

  /** Whether a card answered a probe as the driver wants it: the check pattern and voltage echoed; powered up, all high voltages. */
  predicate Accepts(cmd: Command, response: word)
  {
    match cmd
    case SendIfCondSd => response % 0x1000 == 0x1AA
    case SendOpCondMmc => PoweredUp(response) && response % 0x100_0000 / 0x8000 == 0x1FF
    case _ => true
  }

  predicate PoweredUp(response: word)
  {
    HasBit(response, 0x8000_0000)
  }

  /** Of the answers from position `from` up to the last one, none was a completed power-up. */
  ghost predicate Unpowered(replies: seq<word>, from: nat)
  {
    forall j :: from <= j < |replies| - 1 ==> !PoweredUp(replies[j])
  }

  lemma {:induction false} UnpoweredNext(replies: seq<word>, reply: word, from: nat)
    requires Unpowered(replies, from) && (|replies| > from ==> !PoweredUp(replies[|replies| - 1]))
    ensures Unpowered(replies + [reply], from)
  {
  }

  lemma {:induction false} UnpoweredFrom(replies: seq<word>)
    ensures Unpowered(replies, |replies|)
  {
  }

  /** And none was the ready transfer state. */
  ghost predicate Busy(replies: seq<word>, from: nat)
  {
    forall j :: from <= j < |replies| - 1 ==> !InTransferState(replies[j])
  }

  lemma {:induction false} BusyFrom(replies: seq<word>)
    ensures Busy(replies, |replies|)
  {
  }

  lemma {:induction false} BusyNext(replies: seq<word>, reply: word, from: nat)
    requires Busy(replies, from) && (|replies| > from ==> !InTransferState(replies[|replies| - 1]))
    ensures Busy(replies + [reply], from)
  {
  }

  /** From position `from` of the log on, the command was accepted and answered as wanted. */
  ghost predicate Heard(log: seq<Sent>, replies: seq<word>, from: nat, cmd: Command)
    requires |log| == |replies|
  {
    exists k :: from <= k < |log| && log[k].cmd == cmd && Accepts(cmd, replies[k])
  }

  lemma {:induction false} HeardNextCommand(log: seq<Sent>, replies: seq<word>, sent: Sent, reply: word, from: nat, cmd: Command)
    requires |log| == |replies| && from <= |log|
    ensures Heard(log + [sent], replies + [reply], from, cmd)
            <==> Heard(log, replies, from, cmd) || (cmd == sent.cmd && Accepts(cmd, reply))
  {
    var log', replies' := log + [sent], replies + [reply];
    if Heard(log, replies, from, cmd) {
      var k :| from <= k < |log| && log[k].cmd == cmd && Accepts(cmd, replies[k]);
      assert log'[k] == log[k] && replies'[k] == replies[k];
    }
    if cmd == sent.cmd && Accepts(cmd, reply) {
      assert log'[|log|] == sent && replies'[|log|] == reply;
    }
    if Heard(log', replies', from, cmd) {
      var k :| from <= k < |log'| && log'[k].cmd == cmd && Accepts(cmd, replies'[k]);
      assert k < |log| ==> log'[k] == log[k] && replies'[k] == replies[k];
    }
  }

  lemma {:induction false} HeardNext(log: seq<Sent>, replies: seq<word>, sent: Sent, reply: word, from: nat)
    requires |log| == |replies| && from <= |log|
    ensures forall c ::
              Heard(log + [sent], replies + [reply], from, c) <==> Heard(log, replies, from, c) || (c == sent.cmd && Accepts(c, reply))
  {
    forall c
      ensures Heard(log + [sent], replies + [reply], from, c) <==> Heard(log, replies, from, c) || (c == sent.cmd && Accepts(c, reply))
    {
      HeardNextCommand(log, replies, sent, reply, from, c);
    }
  }

  lemma {:induction false} NothingHeard(log: seq<Sent>, replies: seq<word>)
    requires |log| == |replies|
    ensures forall c :: !Heard(log, replies, |log|, c)
  {
  }

  /** The line resets of a recovery: the command line, then the data lines for a command that moves data. */
  ghost predicate LinesReset(cmd: Command, a: Tally, b: Tally)
  {
    var n := |a.lineResets|;
    && a.lineResets <= b.lineResets && n < |b.lineResets| && b.lineResets[n].line == CommandLine
    && (cmd.MovesData() ==> n + 1 < |b.lineResets| && b.lineResets[n + 1].line == DataLines)
  }

  /** The answer that decides on a soft reset: the last line's. */
  ghost function Deciding(cmd: Command, a: Tally, b: Tally): Status
    requires LinesReset(cmd, a, b)
  {
    b.lineResets[|a.lineResets| + if cmd.MovesData() then 1 else 0].status
  }

  lemma {:induction false} DecidingStays(cmd: Command, a: Tally, b: Tally, c: Tally)
    requires LinesReset(cmd, a, b) && Grown(b, c)
    ensures LinesReset(cmd, a, c) && Deciding(cmd, a, c) == Deciding(cmd, a, b)
  {
  }

  lemma {:induction false} RecoveryCounted(cmd: Command, a: Tally, b: Tally, c: Tally)
    requires b == a.(recoveries := a.recoveries + 1) && LinesReset(cmd, b, c)
    ensures LinesReset(cmd, a, c) && Deciding(cmd, a, c) == Deciding(cmd, b, c)
  {
  }

  /** Card states that the driver does not support, and how initialisation reports them. */
  ghost predicate Short(status: Status, info: CardInfo)
  {
    match status
    case NoMedia => info.function_ == UnknownCard
    case Unsupported => info.function_ == Sdio || info.function_ == ComboSdSdio || (info.function_ == Mmc && info.specVersion < 4)
    case ProtocolError => info.function_ == Mmc && info.speedMode == HighSpeed
    case _ => false
  }

  lemma {:induction false} NoCardIsShort(info: CardInfo)
    ensures info.function_ == UnknownCard ==> Short(NoMedia, info)
  {
  }

  lemma {:induction false} Kinds(cmd: Command)
    ensures cmd.IsSwitch() ==> !cmd.IsProbe() && !cmd.IsApp() && !cmd.IsMultiBlock()
    ensures cmd.MovesData() ==> !cmd.IsProbe() && !cmd.IsApp()
    ensures cmd.IsMultiBlock() ==> cmd.MovesData()
  {
  }

  lemma {:induction false} TroubleAfter(t: Trouble, cmd: Command, worked: bool)
    ensures var after := t.After(cmd, worked);
            && t.faults <= after.faults && t.silences <= after.silences && (worked ==> after == t)
            && (!worked && !cmd.IsProbe() ==> t.faults < after.faults)
  {
  }

  lemma {:induction false} ElsewhereInstalled(installed: set<Registration>, handle: nat, p: Protocol)
    ensures Elsewhere(installed + {(handle, p)}, handle) == Elsewhere(installed, handle)
  {
  }

  /** Registrations of another handle are the same when those off `handle` are. */
  lemma {:induction false} SameElsewhere(before: set<Registration>, after: set<Registration>, handle: nat, other: nat)
    requires Elsewhere(before, handle) == Elsewhere(after, handle) && other != handle
    ensures forall p :: (other, p) in before <==> (other, p) in after
  {
    forall p
      ensures (other, p) in before <==> (other, p) in after
    {
      assert (other, p) in before <==> (other, p) in Elsewhere(before, handle);
      assert (other, p) in after <==> (other, p) in Elsewhere(after, handle);
    }
  }

  /** The same but for other handles' registrations. */
  ghost predicate OnlyOthers(a: Tally, b: Tally)
  {
    b == a.(others := b.others, refusals := b.refusals)
  }

  /**
   A slot has been asked for its card, and reset if the answer differs from its media's
   record; if not, nothing else has been done with it.
   */
  ghost predicate Checked(a: Tally, c: Record, b: Tally, d: Record)
  {
    && |a.presence| < |b.presence| && a.presence <= b.presence
    && var present := b.presence[|a.presence|];
       if present == c.media.present
       then d == c && b == a.(others := b.others, refusals := b.refusals, presence := a.presence + [present])
       else b.softResets > a.softResets
  }

  lemma {:induction false} CheckedLater(a: Tally, b: Tally, c: Record, e: Tally, d: Record)
    requires OnlyOthers(a, b) && Checked(b, c, e, d)
    ensures Checked(a, c, e, d)
  {
  }

  lemma {:induction false} CheckedStays(a: Tally, c: Record, b: Tally, e: Tally, d: Record)
    requires Checked(a, c, b, d) && OnlyOthers(b, e)
    ensures Checked(a, c, e, d)
  {
  }
}
