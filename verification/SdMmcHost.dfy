/**
 What an SD/eMMC driver instance works with: the boot services' table of published
 protocols and a host controller. Both may fail at any call and count their failures.
 */
module SdMmcHost {
  import opened Bytes
  import opened SdMmcCommands

  // ---------- Published protocols ----------

  datatype Protocol = BlockIo | DevicePath | RpmbIo

  type Registration = (nat, Protocol)

  /** At most one handle carries RpmbIo. */
  ghost predicate OneRpmb(installed: set<Registration>)
  {
    forall a, b :: (a, RpmbIo) in installed && (b, RpmbIo) in installed ==> a == b
  }

  ghost predicate RpmbSomewhere(installed: set<Registration>)
  {
    exists r :: r in installed && r.1 == RpmbIo
  }

  /** The registrations of handles other than `handle`. */
  ghost function Elsewhere(installed: set<Registration>, handle: nat): set<Registration>
  {
    set r | r in installed && r.0 != handle
  }

  /** The boot services and their table of installed protocols. Any call may be refused; installing twice is. */
  class ProtocolDatabase {
    var installed: set<Registration>

    /** Refusals that the table itself gives no reason for. */
    ghost var refusals: nat

    constructor ()
      ensures installed == {}
    {
      installed, refusals := {}, 0;
    }

    method Install(handle: nat, p: Protocol) returns (status: Status)
      modifies this
      ensures status == Success ==> (handle, p) !in old(installed) && installed == old(installed) + {(handle, p)}
      ensures status != Success ==> installed == old(installed)
      ensures refusals >= old(refusals)
      ensures refusals > old(refusals) <==> status != Success && (handle, p) !in old(installed)
    {
      if (handle, p) in installed {
        return AlreadyStarted;
      }
      status := *;
      if status == Success {
        installed := installed + {(handle, p)};
      } else {
        refusals := refusals + 1;
      }
    }

    method Uninstall(handle: nat, p: Protocol) returns (status: Status)
      modifies this
      ensures status == Success ==> (handle, p) in old(installed) && installed == old(installed) - {(handle, p)}
      ensures status != Success ==> installed == old(installed)
      ensures refusals >= old(refusals)
      ensures refusals > old(refusals) <==> status != Success && (handle, p) in old(installed)
    {
      if (handle, p) !in installed {
        return NotFound;
      }
      status := *;
      if status == Success {
        installed := installed - {(handle, p)};
      } else {
        refusals := refusals + 1;
      }
    }

    /** The text of the device path, for which memory may be short. */
    method ConvertDevicePathToText() returns (ok: bool)
      modifies this`refusals
      ensures refusals == old(refusals) + if ok then 0 else 1
    {
      ok := *;
      refusals := refusals + if ok then 0 else 1;
    }

    /** Whether any handle carries RpmbIo. */
    method IsRpmbInstalledOnTheSystem() returns (found: bool)
      ensures found <==> RpmbSomewhere(installed)
    {
      found := exists r | r in installed :: r.1 == RpmbIo;
    }
  }

  // ---------- The host controller ----------

  datatype Line = CommandLine | DataLines

  datatype LineReset = LineReset(line: Line, status: Status)

  datatype Setting = ResetAll | IdentificationClock | FullClock | BusWidth(bits: nat)

  /** Errors met: silences are those of the commands that find out what card there is. */
  datatype Trouble = Trouble(faults: nat, silences: nat)
  {
    function After(cmd: Command, worked: bool): Trouble {
      if worked then this else if cmd.IsProbe() then this.(silences := silences + 1) else this.(faults := faults + 1)
    }
  }

  /** A host controller, with what it has been asked for and what went wrong. Any call may fail, a card may answer anything. */
  class HostController {
    /** The commands handed over, whatever became of them. */
    ghost var tried: seq<Sent>

    /** The commands whose data phase worked. */
    ghost var moved: seq<Command>
    ghost var lineResets: seq<LineReset>
    ghost var settings: seq<Setting>

    /** The answers to whether there is a card, and whether it is write-protected. */
    ghost var presence: seq<bool>
    ghost var protection: seq<bool>
    ghost var trouble: Trouble

    constructor ()
    {
      tried, moved, lineResets, settings, presence, protection, trouble := [], [], [], [], [], [], Trouble(0, 0);
    }

    method SendCommand(cmd: Command, arg: word) returns (status: Status)
      modifies this`tried, this`trouble
      ensures tried == old(tried) + [Sent(cmd, arg)]
      ensures trouble == old(trouble).After(cmd, status == Success)
    {
      status := *;
      tried, trouble := tried + [Sent(cmd, arg)], trouble.After(cmd, status == Success);
    }

    /** The card's response; an error bit in its status is trouble too. */
    method ReceiveResponse(cmd: Command, card: Function) returns (status: Status, response: word)
      modifies this`trouble
      ensures trouble == old(trouble).After(cmd, status == Success && !(cmd.AnswersStatus() && IsCardStatusError(card, response)))
    {
      status, response := *, *;
      trouble := trouble.After(cmd, status == Success && !(cmd.AnswersStatus() && IsCardStatusError(card, response)));
    }

    /** ReadBlockData or WriteBlockData. */
    method MoveBlockData(cmd: Command) returns (status: Status)
      requires cmd.MovesData()
      modifies this`moved, this`trouble
      ensures moved == if status == Success then old(moved) + [cmd] else old(moved)
      ensures trouble == old(trouble).After(cmd, status == Success)
    {
      status := *;
      moved, trouble := if status == Success then moved + [cmd] else moved, trouble.After(cmd, status == Success);
    }

    method ResetLine(line: Line) returns (status: Status)
      modifies this`lineResets, this`trouble
      ensures lineResets == old(lineResets) + [LineReset(line, status)]
      ensures trouble == old(trouble).(faults := old(trouble).faults + if status == Success then 0 else 1)
    {
      status := *;
      lineResets := lineResets + [LineReset(line, status)];
      trouble := trouble.(faults := trouble.faults + if status == Success then 0 else 1);
    }

    /** SoftwareReset of everything, SetClock and SetBusWidth; FullClock can also fail for a speed unknown to the driver. */
    method Set(setting: Setting) returns (status: Status)
      modifies this`settings, this`trouble
      ensures settings == old(settings) + [setting]
      ensures trouble == old(trouble).(faults := old(trouble).faults + if status == Success then 0 else 1)
    {
      status := *;
      settings := settings + [setting];
      trouble := trouble.(faults := trouble.faults + if status == Success then 0 else 1);
    }

    method IsCardPresent() returns (present: bool)
      modifies this`presence
      ensures presence == old(presence) + [present]
    {
      present := *;
      presence := presence + [present];
    }

    method IsReadOnly() returns (readOnly: bool)
      modifies this`protection
      ensures protection == old(protection) + [readOnly]
    {
      readOnly := *;
      protection := protection + [readOnly];
    }
  }
}
