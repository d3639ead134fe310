/**
 * The exceptions the core throws, as one error datatype. Each standard-specific
 * exception keeps the message the source gives it; exceptions raised by the .NET
 * runtime or its libraries (bad index, bad number, bad address) are `RuntimeFailure`.
 */
module Errors {

  /** The runtime exception behind a `RuntimeFailure`. */
  datatype RuntimeCause =
    | IndexOutOfRange      // IndexOutOfRangeException: an array read past its end
    | ArgumentOutOfRange   // ArgumentOutOfRangeException from Substring, GetString, BitConverter
    | ArrayTooSmall        // ArgumentException from BitConverter.ToString: the range runs past the array
    | Format               // FormatException from int.Parse or IPAddress.Parse
    | Overflow             // OverflowException from int.Parse
    | NotImplemented       // NotImplementedException
    | ArgumentNull         // ArgumentNullException from a LINQ operator given null

  datatype Error =
    | SpfInvalid(message: string)     // InvalidSpfException
    | DkimInvalid(message: string)    // DkimInvalidException
    | DkimNotFound(message: string)   // DkimNotFoundException
    | DmarcInvalid(message: string)   // InvalidDmarcException
    | BimiInvalid(message: string)    // BimiInvalidException
    | BimiNotFound(message: string)   // BimiNotFoundException
    | DnsArgument(message: string)    // ArgumentException thrown by the DNS message parser
    | RuntimeFailure(cause: RuntimeCause)
}
