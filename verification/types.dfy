/** Data shapes shared by both versions of the pairing coordinator. */
module Types {

  /** A user identity: the free-text name typed at login, compared case-sensitively. */
  type UserName = string

  /** What a matched user is told: who the partner is and where to meet. */
  datatype PairedInfo = PairedInfo(partnerName: UserName, meetLink: string)

  /** The conventional Some/None datatype, standing in for `T | null`. */
  datatype Option<+T> = None | Some(value: T)
}
