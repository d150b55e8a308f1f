/** The record the relying party stores for one registered authenticator. */
module Authenticators {

  /** A value that may be absent: `None` stands for a Java `null`. */
  datatype Option<+T> = None | Some(value: T)

  /**
   * The fields of a stored authenticator that the store never filters on and
   * never writes: key material, AAGUID, attestation format and flags. They are
   * kept so that "every other field is unchanged" can be stated.
   */
  datatype Details = Details(publicKey: string, aaguid: string, fmt: string, flags: int)

  /**
   * One authenticator record. The same type serves as a stored entry and as
   * the partial record a lookup is made with, exactly as in the program.
   * The signature counter is a Java `long` there; the store only copies it,
   * so an unbounded `int` loses nothing.
   */
  datatype Authenticator = Authenticator(
    credID: Option<string>,
    userName: Option<string>,
    counter: int,
    rest: Details)
}
