/** The values of splice information sections (sections 9 and 10 of ANSI/SCTE 35 2017). */
module Scte35 {
  import opened Wrappers
  import opened Words

  datatype SpliceTime = SpliceTime(ptsTime: Option<u64>)

  datatype BreakDuration = BreakDuration(autoReturn: bool, duration: u64)

  datatype ScheduleComponent = ScheduleComponent(tag: byte, utcSpliceTime: u32)

  datatype ProgramSplice =
    | ProgramSpliceOn(utcSpliceTime: u32)
    | ProgramSpliceOff(components: seq<ScheduleComponent>)

  datatype ScheduleDetails = ScheduleDetails(
    outOfNetwork: bool,
    splice: ProgramSplice,
    breakDuration: Option<BreakDuration>,
    uniqueProgramId: u16,
    availNum: byte,
    availsExpected: byte)

  /** An event without details is a cancelled one. */
  datatype ScheduleEvent = ScheduleEvent(id: u32, details: Option<ScheduleDetails>)

  datatype InsertComponent = InsertComponent(tag: byte, spliceTime: Option<SpliceTime>)

  datatype InsertDetails = InsertDetails(
    outOfNetwork: bool,
    programSplice: bool,
    spliceImmediate: bool,
    spliceTime: Option<SpliceTime>,
    components: Option<seq<InsertComponent>>,
    breakDuration: Option<BreakDuration>,
    uniqueProgramId: u16,
    availNum: byte,
    availsExpected: byte)

  datatype Command =
    | SpliceNull
    | SpliceSchedule(events: seq<ScheduleEvent>)
    | SpliceInsert(id: u32, details: Option<InsertDetails>)
    | TimeSignal(spliceTime: SpliceTime)
    | BandwidthReservation
    | PrivateCommand(identifier: u32, data: bytes)
  {
    function Type(): byte {
      match this
      case SpliceNull => 0x00
      case SpliceSchedule(_) => 0x04
      case SpliceInsert(_, _) => 0x05
      case TimeSignal(_) => 0x06
      case BandwidthReservation => 0x07
      case PrivateCommand(_, _) => 0xFF
    }
  }

  datatype Descriptor =
    | AvailDescriptor(providerAvailId: u32)
    | DtmfDescriptor(preroll: byte, dtmfChars: bytes)
    | SegmentationDescriptor(data: bytes)
    | TimeDescriptor(taiSeconds: u64, taiNanoseconds: u32, utcOffset: u16)

  const AVAIL_TAG: byte := 0x00
  const DTMF_TAG: byte := 0x01
  const SEGMENTATION_TAG: byte := 0x02
  const TIME_TAG: byte := 0x03
  const AVAIL_LENGTH: byte := 8
  const TIME_LENGTH: byte := 16
  const CUEI_IDENTIFIER: u32 := 0x4355_4549

  const TABLE_ID: byte := 0xFC
  const PROTOCOL_VERSION: byte := 0
  const MAX_SECTION_LENGTH := 4093

  /** table_id to splice_command_type, descriptor_loop_length and CRC_32. */
  const MIN_SECTION_SIZE := 20

  datatype Section = Section(
    encryptedPacket: bool,
    encryptionAlgorithm: byte,
    ptsAdjustment: u64,
    cwIndex: byte,
    tier: u16,
    command: Command,
    descriptors: seq<Descriptor>)
}
