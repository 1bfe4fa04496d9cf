/**
 * The values the certificate registry stores and the errors it reverts with.
 */
module Certificates {

  /** An account address: a 160-bit unsigned integer. Address 0 is the zero address. */
  newtype Address = x: int | 0 <= x < 0x1_0000_0000_0000_0000_0000_0000_0000_0000_0000_0000

  /** Length of one day of validity, in seconds of block time. */
  const SecondsPerDay: nat := 86400

  datatype Recipient = Recipient(name: string, surname: string)

  /**
   * One issued certificate. `issueDate` and `expireDate` are block timestamps in
   * seconds; `issuer` is the account that added it.
   */
  datatype Certificate = Certificate(
    checksum: string,
    recipient: Recipient,
    issueDate: nat,
    expireDate: nat,
    issuer: Address)

  /**
   * What a lookup of a missing checksum returns: the all-zero record, whose
   * empty checksum marks it as absent.
   */
  const Absent: Certificate := Certificate("", Recipient("", ""), 0, 0, 0)

  /** The reasons a registry call reverts. */
  datatype Error =
    | NotTrustedIssuer
    | EmptyChecksum
    | AlreadyPresent
    | EmptyName
    | EmptySurname
    | InvalidDuration
    | NotIssuer
    | DoesNotExist

  /** The revert message of each error. */
  function Message(e: Error): string {
    match e
    case NotTrustedIssuer => "You are not a trusted issuer!"
    case EmptyChecksum => "File checksum must not be empty!"
    case AlreadyPresent => "Certificate already present!"
    case EmptyName => "Recipient name must not be empty!"
    case EmptySurname => "Recipient surname must not be empty!"
    case InvalidDuration => "Contract must be valid for at least 1 day!"
    case NotIssuer => "You must be contract's issuer!"
    case DoesNotExist => "Certificate does not exist!"
  }

  /** Distinct errors revert with distinct messages, so a caller can tell them apart. */
  lemma MessagesDistinct(a: Error, b: Error)
    requires a != b
    ensures Message(a) != Message(b)
  {
  }

  /** The state after a call that changes state, or the error it reverts with. */
  datatype Result<T> = Ok(value: T) | Err(error: Error)

  /** What a state-changing call of the registry reports: it passed, or it reverted. */
  datatype Outcome = Pass | Fail(error: Error)
}
