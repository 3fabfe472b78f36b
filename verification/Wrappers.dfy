/** Failure-compatible results, optional values, and the machine words the program computes with. */
module Wrappers {

  datatype Option<+T> = None | Some(value: T)

  /** Why an operation of the program ends early. */
  datatype Error =
    | TooFewBytes          // require_distance failed
    | ConditionFailed      // a TEST_CONST check failed
    | UnsupportedCommand   // splice_command_type is none of the known ones
    | CommandLengthDiffers // the command read has not the announced length
    | UnknownDescriptor    // splice_descriptor_tag is none of the known ones
    | Encrypted            // encrypted_packet is set
    | ChecksumMismatch     // CRC_32 over the section is not zero
    | MalformedSei         // an SEI message runs past its NALU
    | MalformedNalu        // a NALU length is missing, zero, too large or runs past the packet
    | MissingStopBit       // RBSP data do not end in a stop bit byte (not a BinaryParseError)
    | Undefined            // the C++ code would read or size memory out of range
    | NotModelled          // the construct is not part of this model

  datatype Result<+R> = Success(value: R) | Failure(error: Error) {
    predicate IsFailure() {
      Failure?
    }

    function PropagateFailure<U>(): (r: Result<U>)
      requires Failure?
    {
      Failure(error)
    }

    function Extract(): R
      requires Success?
    {
      value
    }
  }
}

/** Unsigned integers of fixed width, and sequences of bytes. */
module Words {
  type byte = x: int | 0 <= x < 0x100
  type u16 = x: int | 0 <= x < 0x1_0000
  type u32 = x: int | 0 <= x < 0x1_0000_0000
  type u64 = x: int | 0 <= x < 0x1_0000_0000_0000_0000

  type bytes = seq<byte>
}
