/** Everything the driver throws, with the exact message text it throws. */
module Errors {

  import opened Status

  datatype Failure =
    | InvalidPathString
    | InvalidPathLength
    | InvalidSecurity
    | SeedNotInitialized
    | InvalidIndex
    | InvalidTransfers
    | InvalidInputs
    | NoInput
    | UnsupportedShape
    | RemainderRequired
    | InvalidRemainder
    | DuplicateAddresses
    | NotFinalized
    | WrongBundleHash
      /** A transport error re-thrown by `_sendCommand`, its message decorated. */
    | DeviceError(cause: TransportError)
      /** A response shorter than the layout the driver reads from it. */
    | ShortResponse
      /** `signature.match(...)` found no full fragment, so `.shift()` was called on null. */
    | NoSignatureFragment

  function Message(f: Failure): string
  {
    match f
    case InvalidPathString => "Invalid BIP32 path string"
    case InvalidPathLength => "Invalid BIP32 path length"
    case InvalidSecurity => "Invalid security level provided"
    case SeedNotInitialized => "Seed not yet initalized"
    case InvalidIndex => "Invalid Index provided"
    case InvalidTransfers => "Invalid transfers array provided"
    case InvalidInputs => "Invalid inputs array provided"
    case NoInput => "At least one input required"
    case UnsupportedShape => "Unsupported number of transfers or inputs"
    case RemainderRequired => "Remainder object required"
    case InvalidRemainder => "Invalid remainder object provided"
    case DuplicateAddresses => "transaction must not contain duplicate addresses"
    case NotFinalized => "Bundle not finalized"
    case WrongBundleHash => "Wrong bundle hash"
    case DeviceError(e) => DeviceErrorMessage(e)
    case ShortResponse => "Response too short"
    case NoSignatureFragment => "Cannot read property 'shift' of null"
  }
}
