/**
  The message shown when the camera check fails: the rejection's `name`
  selects one of three specific messages, anything else gets the generic one.
 */
module CameraErrors {

  /** The denial reasons the player recognises, plus everything else. */
  datatype CameraFailure = PermissionDenied | NoCamera | Unsupported | Other

  const GenericMessage: string := "Camera access is required for AR experience"
  const DeniedMessage: string := "Camera permission denied. Please allow camera access and try again."
  const NoCameraMessage: string := "No camera found on this device."
  const UnsupportedMessage: string := "Camera is not supported on this device."

  /** Which failure an error `name` denotes: an exact, case-sensitive match. */
  function Classify(name: string): (f: CameraFailure)
    ensures f == PermissionDenied <==> name == "NotAllowedError"
    ensures f == NoCamera <==> name == "NotFoundError"
    ensures f == Unsupported <==> name == "NotSupportedError"
  {
    if name == "NotAllowedError" then PermissionDenied
    else if name == "NotFoundError" then NoCamera
    else if name == "NotSupportedError" then Unsupported
    else Other
  }

  /** The user-facing text of each failure kind. */
  function Message(f: CameraFailure): string
  {
    match f
    case PermissionDenied => DeniedMessage
    case NoCamera => NoCameraMessage
    case Unsupported => UnsupportedMessage
    case Other => GenericMessage
  }

  /** handleCameraError: the message for an error name. */
  function HandleCameraError(name: string): (msg: string)
    ensures msg == GenericMessage <==>
      name != "NotAllowedError" && name != "NotFoundError" && name != "NotSupportedError"
    ensures name == "NotAllowedError" ==> msg == DeniedMessage
    ensures name == "NotFoundError" ==> msg == NoCameraMessage
    ensures name == "NotSupportedError" ==> msg == UnsupportedMessage
  {
    MessagesDistinct(Classify(name), Other);
    Message(Classify(name))
  }

  /** Different failure kinds are reported with different messages. */
  lemma MessagesDistinct(f: CameraFailure, g: CameraFailure)
    ensures Message(f) == Message(g) <==> f == g
  {
  }

  /** Two error names give the same message exactly when they denote the same failure. */
  lemma SameMessageSameFailure(a: string, b: string)
    ensures HandleCameraError(a) == HandleCameraError(b) <==> Classify(a) == Classify(b)
  {
    MessagesDistinct(Classify(a), Classify(b));
  }
}
