/** The records the vault stores on disk (`DefFileEntry`, `DefFile`, `PasswordFile`). */
module Models {

  /** One index entry: the file holding the secret, and the sealed display name. */
  datatype DefFileEntry = DefFileEntry(
    encryptedFilename: string, // "<uuid>.pwd", stored in clear
    encryptedName: string,     // base64 of the sealed display name
    nonce: string)             // base64 of the nonce the name was sealed with

  /** The decrypted contents of the `def` index file. */
  datatype DefFile = DefFile(entries: seq<DefFileEntry>)

  /** The contents of one `<uuid>.pwd` file. */
  datatype PasswordFile = PasswordFile(
    encryptedPassword: string, // base64 of the sealed secret
    nonce: string)             // base64 of its nonce
}
