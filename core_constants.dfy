/**
 * The values the connection core takes from the QUIC core package's
 * `Constants` class. Their concrete values live outside this model, so they
 * are a record handed to the constructors that read them.
 */
module CoreConstants {

  /** A transport parameter value (PHP `mixed`). */
  datatype ParamValue = IntParam(i: int) | BoolParam(b: bool) | TextParam(s: string)

  datatype Constants = Constants(
    defaultTransportParameters: map<string, ParamValue>,  // Constants::getDefaultTransportParameters()
    defaultIdleTimeout: int,                              // Constants::DEFAULT_IDLE_TIMEOUT, in milliseconds
    defaultConnectionIdLength: nat)                       // Constants::DEFAULT_CONNECTION_ID_LENGTH

  /** PHP_INT_MAX on a 64-bit build. */
  const PhpIntMax := 0x7FFF_FFFF_FFFF_FFFF
}
