/**
 Commands of an SD or eMMC card, their arguments, and the status word that a card
 answers with.
 */
module SdMmcCommands {
  import opened Bytes

  /** The driver's block size; it supports no other. */
  const BLOCK_LENGTH: nat := 512

  datatype Status =
    | Success
    | InvalidParameter
    | Unsupported
    | BadBufferSize
    | DeviceError
    | WriteProtected
    | OutOfResources
    | NoMedia
    | MediaChanged
    | NotFound
    | AccessDenied
    | AlreadyStarted
    | Timeout
    | ProtocolError

  datatype Command =
    | GoIdleState | SendOpCondMmc | SendCidAll | SendRelativeAddr | SendOpCondSdio
    | SwitchSd | SwitchMmc | AppSetBusWidthSd | Select | SendIfCondSd | SendExtCsdMmc
    | SendCsd | SendCid | StopTransmission | SendStatus | SetBlockLength
    | ReadSingleBlock | ReadMultiBlock | SetBlockCount | WriteSingleBlock | WriteMultiBlock
    | AppSendOpCondSd | AppSd
  {
    predicate IsApp() {
      AppSetBusWidthSd? || AppSendOpCondSd?
    }

    /** Commands that find out what card there is: a card of another kind does not answer. */
    predicate IsProbe() {
      SendIfCondSd? || SendOpCondSdio? || SendOpCondMmc?
    }

    /** Response type R1 or R1b: the response is the card status. */
    predicate AnswersStatus() {
      AppSd? || SwitchSd? || SwitchMmc? || AppSetBusWidthSd? || Select? || SendExtCsdMmc? || StopTransmission? || SendStatus?
      || SetBlockLength? || ReadSingleBlock? || ReadMultiBlock? || SetBlockCount? || WriteSingleBlock? || WriteMultiBlock?
    }

    /** The transfer type is a single block or several. */
    predicate MovesData() {
      SwitchSd? || SendExtCsdMmc? || ReadSingleBlock? || ReadMultiBlock? || WriteSingleBlock? || WriteMultiBlock?
    }

    predicate IsMultiBlock() {
      ReadMultiBlock? || WriteMultiBlock?
    }

    predicate IsSwitch() {
      SwitchSd? || SwitchMmc?
    }
  }

  /** A command the card has accepted, with its argument. */
  datatype Sent = Sent(cmd: Command, arg: word)

  datatype Function = UnknownCard | Sd | Sdio | ComboSdSdio | Mmc

  datatype SpeedMode = UndefinedSpeed | NormalSpeed | HighSpeed

  /** The fields of the extended CSD register that the driver acts on. */
  datatype ExtCsd = ExtCsd(partitionConfig: byte, highSpeedTiming: byte, powerClass: byte, powerClass52: byte, powerClass26: byte, sectorCount: word)

  datatype CardInfo = CardInfo(
    function_: Function,
    rca: word,
    hasExtendedOcr: bool,
    highCapacity: bool,
    speedMode: SpeedMode,
    specVersion: byte,
    serial: word,
    ext: ExtCsd)

  /** What InitializeDevice starts from: all zeros. */
  const NO_CARD: CardInfo := CardInfo(UnknownCard, 0, false, false, UndefinedSpeed, 0, 0, ExtCsd(0, 0, 0, 0, 0, 0))

  // ---------- The card status word ----------

  const STATE_TRAN: nat := 4

  predicate ReadyForData(status: word)
  {
    status / 0x100 % 2 == 1
  }

  function CurrentState(status: word): nat
  {
    status / 0x200 % 16
  }

  predicate InTransferState(status: word)
  {
    ReadyForData(status) && CurrentState(status) == STATE_TRAN
  }

  const SHARED_ERROR_BITS: seq<nat> := [
    0x2000, 0x8000, 0x1_0000, 0x8_0000, 0x10_0000, 0x20_0000, 0x40_0000, 0x80_0000, 0x100_0000,
    0x400_0000, 0x800_0000, 0x1000_0000, 0x2000_0000, 0x4000_0000, 0x8000_0000]

  predicate HasBit(w: word, bit: nat)
  {
    bit > 0 && w / bit % 2 == 1
  }

  /** The error masks: SD adds AKE_SEQ_ERROR, MMC adds SWITCH_ERROR, OVERRUN and UNDERRUN. */
  predicate IsCardStatusError(card: Function, status: word)
  {
    match card
    case Sd => HasBit(status, 0x8) || exists b | b in SHARED_ERROR_BITS :: HasBit(status, b)
    case Mmc => HasBit(status, 0x80) || HasBit(status, 0x2_0000) || HasBit(status, 0x4_0000)
                || exists b | b in SHARED_ERROR_BITS :: HasBit(status, b)
    case _ => false
  }

  // ---------- Arguments ----------

  /** The relative card address in the upper half of the argument. */
  function RcaArg(rca: word): word
  {
    ToWord(rca * 0x1_0000)
  }

  /** A SWITCH argument that writes one byte of the extended CSD. */
  function SwitchArg(index: byte, value: byte): word
  {
    Join(3, index, value, 0)
  }

  const EXT_CSD_PARTITION_CONFIG: byte := 179
  const EXT_CSD_BUS_WIDTH: byte := 183
  const EXT_CSD_HS_TIMING: byte := 185
  const EXT_CSD_POWER_CLASS: byte := 187
  const PARTITION_RPMB: byte := 3

  /** PARTITION_ACCESS, the low three bits of PARTITION_CONFIG. */
  function Access(config: byte): byte
  {
    config % 8
  }

  function WithAccess(config: byte, partition: byte): (c: byte)
    requires partition < 8
    ensures Access(c) == partition
    ensures c / 8 == config / 8
  {
    config / 8 * 8 + partition
  }

  /** The argument of SET_BLOCK_COUNT; bit 31 asks for a reliable write. */
  function BlockCountArg(count: nat, reliable: bool): word
  {
    if reliable then ToWord(count) % 0x8000_0000 + 0x8000_0000 else ToWord(count)
  }

  /**
   The fields of the arguments: the address in the upper half; access type 3, write byte,
   with the register's index and value below it; the block count with the reliable-write
   bit above it.
   */
  lemma {:induction false} ArgumentFields(rca: word, index: byte, value: byte, count: nat, reliable: bool)
    ensures RcaArg(rca) % 0x1_0000 == 0 && (rca < 0x1_0000 ==> RcaArg(rca) / 0x1_0000 == rca)
    ensures var w := SwitchArg(index, value);
            w / 0x100_0000 == 3 && w / 0x1_0000 % 0x100 == index && w / 0x100 % 0x100 == value && w % 0x100 == 0
    ensures count < 0x8000_0000 ==>
              var w := BlockCountArg(count, reliable);
              w % 0x8000_0000 == count && (HasBit(w, 0x8000_0000) <==> reliable)
  {
    assert 0 <= rca * 0x1_0000 % TWO_TO_THE_32;
  }
}
