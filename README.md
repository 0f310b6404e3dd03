# rpm vault engine and session logic, modelled in Dafny

rpm is a terminal password manager. This project models its core:

- **The encrypted vault** (`PasswordStorage`). A vault directory holds an index file `def`:
  a 12-byte nonce, then the AES-256-GCM seal of a JSON list of entries. Each entry has a
  `<uuid>.pwd` file name, an encrypted display name and a nonce. There is also one
  `<uuid>.pwd` file per secret, holding JSON with a base64 ciphertext and a base64 nonce.
  Every index operation loads the whole index, changes the entry list and rewrites the
  file. The operations are add, rename, delete, list and find-by-name.
- **The cipher manager.** It covers the 32-byte key gate, sealing and opening, Argon2id
  hashes in PHC form, hex tokens, and a key holder that zeroes itself on drop.
- **The session logic of the terminal interface.** It covers:
  - provisioning and unlocking a vault with the master password, including the salt in
    the directory configuration;
  - field cycling on three screens;
  - the list selection and search filtering;
  - the clipboard-cleanup task bookkeeping;
  - the password generator.
- **The interface languages and the translator.**

Modules, one file each:

- `prelude.dfy`: `Option`, bytes.
- `errors.dfy`: `RpmError` and `Result`.
- `utf8.dfy`, `base64.dfy`, `hex.dfy` and `json.dfy`: concrete stand-ins for the codec
  crates, with their round trips proved.
- `models.dfy`: the serialized records.
- `crypto.dfy`: the cipher manager.
- `filesystem.dfy`: the file system, a class over a map from path to bytes.
- `index.dfy`: edits to the entry list.
- `storage_ops.dfy`: what each storage operation does to the files, as functions.
- `storage.dfy`: the `PasswordStorage` class. Its loops are proved against those
  functions.
- `localization.dfy`: languages and the translator.
- `generator.dfy`: the password generator.
- `tui.dfy`: the session state.

How the outside world is modelled:

- **The cipher** is symbolic. A seal is the plaintext plus a tag built from the key, the
  nonce and the plaintext. Opening succeeds only on a genuine seal under the same key and
  nonce, so the model captures authentication but not secrecy.
- **The password hash** is symbolic in the same way. Its digest is the UTF-8 text of the
  hash's setting (algorithm, version and parameters), then the salt, then the password's
  UTF-8 bytes.
- **Randomness** becomes a parameter of the operation that consumes it: nonces, UUIDs,
  hash salts, key salts, token bytes and the generator's draws.

## Model

| member | source | states |
|---|---|---|
| Crypto.OpenSeal | src/crypto/mod.rs:73-75 | opening a seal with the key and nonce that made it returns the plaintext |
| Crypto.OpenOnlySeals | src/crypto/mod.rs:73-75 | whatever opens is exactly the seal of what it opens to (no forged ciphertext authenticates) |
| Crypto.OpenOtherKeyOrNonce | src/crypto/mod.rs:73-75 | a seal opened with another key or another nonce fails |
| Crypto.OpenTampered | src/crypto/mod.rs:73-75 | changing any single byte of a seal makes opening fail |
| Crypto.EncryptData | src/storage/mod.rs:80 | `encrypt_data`: Crypto error iff the key is not 32 bytes; otherwise returns the drawn nonce and a ciphertext that opens to the data |
| Crypto.DecryptData | src/storage/mod.rs:63 | `decrypt_data` with a checked nonce: Crypto error for a bad key length; Ok iff key and nonce lengths are right and the ciphertext authenticates, and then the ciphertext is the seal of the result |
| Crypto.DecryptDataAsWritten | src/crypto/mod.rs:64-75 | as written, the call panics exactly when the key is 32 bytes and the nonce is not 12 |
| Crypto.DecryptDataAgrees | src/crypto/mod.rs:64-75 | wherever the as-written code returns, it returns what the checked version returns |
| Crypto.ShortNoncePanics | src/storage/mod.rs:105-108 | a stored nonce field "AAAA" decodes to 3 bytes and makes decryption panic |
| Crypto.DecryptEncryptData | src/storage/mod.rs:63-80 | with a 32-byte key, decrypting what `encrypt_data` produced returns the data |
| Crypto.EncryptPassword | src/crypto/mod.rs:47-61 | Crypto error iff the key is not 32 bytes, checked before the cipher is used |
| Crypto.DecryptPassword | src/crypto/mod.rs:64-79 | Crypto error for a key that is not 32 bytes; every failure is a Crypto error; success implies a 32-byte key and a 12-byte nonce |
| Crypto.DecryptPasswordAsWritten | src/crypto/mod.rs:71 | as written, the call panics exactly on a 32-byte key with a nonce that is not 12 bytes, and otherwise agrees with the checked version |
| Crypto.DecryptEncryptPassword | src/crypto/mod.rs:47-79 | with a 32-byte key, decrypting the (ciphertext, nonce) that `encrypt_password` produced returns the password |
| Crypto.DecryptPasswordInvalidUtf8 | src/crypto/mod.rs:77-78 | an authentic plaintext that is not UTF-8 gives the Crypto "Invalid UTF-8" error |
| Crypto.DecryptPasswordWrongKeyOrNonce | src/crypto/mod.rs:73-75 | another key or nonce is an error and never yields plaintext |
| Crypto.DecryptPasswordTampered | src/crypto/mod.rs:73-75 | an altered ciphertext byte is a Crypto error |
| Crypto.HashPassword | src/crypto/mod.rs:27-34 | the hash is the PHC string of Argon2id, version 19 and the default costs, with the drawn salt and the digest of the password, and parses back to exactly those parts |
| Crypto.ParseRender | src/crypto/mod.rs:38-39 | every well-formed set of PHC parts is written as a string that parses back to those parts |
| Crypto.RenderParse | src/crypto/mod.rs:38-39 | only canonical strings parse: a parsed string is exactly the rendering of its parts |
| Crypto.ParseWellFormed | src/crypto/mod.rs:38-39 | whatever parses is well formed, so parsing and rendering are inverse on PHC strings |
| Crypto.VerifyPassword | src/crypto/mod.rs:37-44 | Crypto "Invalid hash format" error iff the string is not PHC syntax; otherwise Ok(true) exactly when Argon2, rerun with the hash's own algorithm, version, parameters and salt, reproduces its output |
| Crypto.VerifyHashedPassword | src/crypto/mod.rs:37-44 | a password verifies against its own hash: Ok(true) |
| Crypto.VerifyWrongPassword | src/crypto/mod.rs:41-43 | a different password gives Ok(false), not an error |
| Crypto.VerifyOwnSettings | src/crypto/mod.rs:40-43 | a hash written with any Argon2 variant, version and parameters verifies its own password, not only one with the default settings |
| Crypto.VerifyOtherScheme | src/crypto/mod.rs:40-43 | a well-formed PHC string of another algorithm, such as `$x`, gives Ok(false), not an error |
| Crypto.VerifyMalformedHash | src/crypto/mod.rs:38-39 | a string that does not start with `$` is a Crypto error |
| Crypto.GenerateToken | src/crypto/mod.rs:82-87 | the token is 64 hex digits that decode back to the 32 random bytes |
| Crypto.SecureKey.constructor | src/crypto/mod.rs:96-98 | the holder keeps exactly the given bytes |
| Crypto.SecureKey.AsSlice | src/crypto/mod.rs:100-102 | the slice is the held bytes |
| Crypto.SecureKey.Drop | src/crypto/mod.rs:105-109 | every byte of the backing buffer is zero afterwards, and the key is empty |
| Utf8.DecodeEncode | src/crypto/mod.rs:77-78 | decoding the UTF-8 encoding of a string gives the string back |
| Utf8.EncodeDecode | src/crypto/mod.rs:77-78 | bytes that decode are the encoding of what they decode to |
| Utf8.EncodeInjective | src/crypto/mod.rs:77-78 | different strings have different encodings |
| Base64.DecodeEncodePadded | src/storage/mod.rs:96-97 | the padded standard encoding decodes back to the bytes |
| Base64.DecodeEncodeNoPad | src/tui/mod.rs:247 | the unpadded encoding decodes back to the bytes |
| Base64.EncodeDecodeNoPad | src/tui/mod.rs:297 | unpadded text that decodes is the encoding of its bytes (canonical decoding) |
| Base64.NoPadRejectsPadding | src/tui/mod.rs:297-298 | padded text of a length not divisible by 3 is rejected by the unpadded decoder, so the padded fallback is reached |
| Base64.PaddedRejectsMissingPadding | src/tui/mod.rs:297-298 | the padded decoder rejects unpadded text of a length not divisible by 3 |
| Hex.EncodeShape | src/crypto/mod.rs:86 | hex text is twice as long as the bytes and made of hex digits |
| Hex.DecodeEncode | src/crypto/mod.rs:86 | hex text decodes back to the bytes |
| Json.ParseEncodeDefFile | src/storage/mod.rs:66-78 | parsing the serialized index gives the index back |
| Json.ParseEncodePasswordFile | src/storage/mod.rs:128-145 | parsing a serialized password record gives the record back |
| FileSystem.ReadFile | src/storage/mod.rs:50-51 | a read returns the stored bytes, or an Io NotFound error iff the path is absent |
| FileSystem.ReadFileToString | src/storage/mod.rs:141-142 | a missing file is Io NotFound; success returns the string whose UTF-8 is the file |
| FileSystem.ReadWrittenString | src/storage/mod.rs:131-142 | reading a file back as a string returns the string written to it |
| FileSystem.JoinDistinct | src/storage/mod.rs:29-31 | two names in the directory give the same path iff they are equal |
| FileSystem.FileSystem.Exists | src/storage/mod.rs:44 | a path exists iff it is in the file map |
| FileSystem.FileSystem.Write | src/storage/mod.rs:86-87 | the path now holds exactly the data and nothing else changes |
| FileSystem.FileSystem.Remove | src/storage/mod.rs:238-240 | the path is gone and Ok iff it existed |
| Index.FirstIndexOf | src/storage/mod.rs:217-218 | the first entry with the filename: no earlier entry has it, and None iff no entry has it |
| Index.RenameFirstAt | src/storage/mod.rs:217-223 | renaming changes only the first entry with the filename (name and nonce), keeps its filename and every other entry in order, and is the identity when none matches |
| Index.RenameFirstFilenames | src/storage/mod.rs:217-223 | renaming keeps the filename list |
| Index.RemoveAll | src/storage/mod.rs:233 | no entry with the filename is left |
| Index.RemoveAllMembers | src/storage/mod.rs:233 | an entry is kept iff it was there and has another filename |
| Index.RemoveAllAppend | src/storage/mod.rs:233 | `retain` works entry by entry and keeps order |
| Index.RemoveAllAbsent | src/storage/mod.rs:233 | with no entry of that filename the list is unchanged |
| Index.RemoveAllIdempotent | src/storage/mod.rs:233 | removing twice is removing once |
| Index.RemoveAllKeepsUnique | src/storage/mod.rs:233 | removal keeps filenames distinct |
| Index.AppendKeepsUnique | src/storage/mod.rs:206 | appending a new filename keeps filenames distinct |
| StorageOps.PasswordFileName | src/storage/mod.rs:125 | `<uuid>.pwd` is 40 characters and never the index name |
| StorageOps.LoadDef | src/storage/mod.rs:41-71 | no `def` file gives an empty index; one shorter than 12 bytes gives a Crypto error; every error is Crypto or Serialization |
| StorageOps.DefBlob | src/storage/mod.rs:74-90 | the index file is the nonce followed by the seal of the serialized index; Crypto error iff the key is not 32 bytes |
| StorageOps.SaveDefOp | src/storage/mod.rs:74-90 | on success only the `def` file is written; on error nothing changes |
| StorageOps.LoadDefAfterSave | src/storage/mod.rs:41-90 | loading with the same key after a save returns the saved index |
| StorageOps.LoadDefOtherKey | src/storage/mod.rs:61-63 | loading with another key is a Crypto error |
| StorageOps.LoadDefInvalidUtf8 | src/storage/mod.rs:64-65 | an authentic plaintext that is not UTF-8 is a Crypto error |
| StorageOps.LoadDefBadJson | src/storage/mod.rs:67-68 | authentic text that is not an index is a Serialization error |
| StorageOps.EncryptName | src/storage/mod.rs:93-99 | Crypto error iff the key is not 32 bytes |
| StorageOps.DecryptName | src/storage/mod.rs:102-111 | every failure is a Crypto error |
| StorageOps.SealedName | src/storage/mod.rs:93-111 | with a 32-byte key, the sealed name decrypts back to the name |
| StorageOps.DecryptEncryptName | src/storage/mod.rs:93-111 | `decrypt_filename` inverts `encrypt_filename` under a 32-byte key |
| StorageOps.ListWithOk | src/storage/mod.rs:182-185 | the listing succeeds iff every entry's name decrypts |
| StorageOps.ListWithValues | src/storage/mod.rs:182-185 | the listing has one (filename, name) pair per entry, in index order |
| StorageOps.ListWithPrefixErr | src/storage/mod.rs:183 | the first entry that fails to decrypt decides the error |
| StorageOps.FindByName | src/storage/mod.rs:250-257 | a found filename is one of the index's filenames |
| StorageOps.FindByNameAgrees | src/storage/mod.rs:247-258 | when all names decrypt, find returns the first pair of the listing with that name, or None |
| StorageOps.FindAgreesWithList | src/storage/mod.rs:178-258 | `find_filename_by_name` agrees with the first match in `list_decrypted_names` |
| StorageOps.FirstMatchAppend | src/storage/mod.rs:250-255 | a name first appearing in an appended pair is found there |
| StorageOps.PasswordRecord | src/storage/mod.rs:117-122 | Crypto error iff the key is not 32 bytes |
| StorageOps.SavePasswordOp | src/storage/mod.rs:114-135 | on success returns `<uuid>.pwd`, adds exactly that file, holding the UTF-8 JSON of the sealed record, and every other file keeps its bytes; on error nothing changes |
| StorageOps.UpdatePasswordOp | src/storage/mod.rs:156-175 | writes the named file, whether or not it existed, with the UTF-8 JSON of the sealed record; every other file keeps its bytes; on error nothing changes |
| StorageOps.LoadPasswordOp | src/storage/mod.rs:138-153 | a missing file is Io NotFound; an Io error arises iff the file is missing or not UTF-8, so decryption and base64 failures are never Io |
| StorageOps.LoadWrittenRecord | src/storage/mod.rs:138-175 | loading a freshly written record returns the password |
| StorageOps.LoadAfterSavePassword | src/storage/mod.rs:114-153 | a saved secret loads back by the returned file name |
| StorageOps.LoadAfterUpdatePassword | src/storage/mod.rs:138-175 | an updated secret loads back as the new password |
| StorageOps.NewEntry | src/storage/mod.rs:195-204 | the new entry names `<uuid>.pwd` and its name decrypts to the given name |
| StorageOps.AddOp | src/storage/mod.rs:191-210 | only the index changes; success returns the new `<uuid>.pwd`; errors change nothing |
| StorageOps.AddAppends | src/storage/mod.rs:191-210 | the index afterwards is the old entries followed by exactly one new entry |
| StorageOps.AddKeepsUnique | src/storage/mod.rs:191-210 | a fresh UUID keeps filenames distinct |
| StorageOps.FindAfterAdd | src/storage/mod.rs:191-258 | after adding a name not yet present, find returns the new file name |
| StorageOps.LoadDefEntriesKey | src/storage/mod.rs:217-219 | an index with entries loaded only with a 32-byte key, so renaming cannot fail the key check |
| StorageOps.UpdateOp | src/storage/mod.rs:213-228 | only the index changes; errors change nothing |
| StorageOps.UpdateOpSaves | src/storage/mod.rs:213-228 | after a successful load, an update is exactly one save of the entries with the first match renamed (the key length is then known to be right) |
| StorageOps.UpdateRenames | src/storage/mod.rs:213-228 | the saved index is the old one with only the first matching entry renamed (identical when none matches), and the call returns Ok |
| StorageOps.UpdateKeepsUnique | src/storage/mod.rs:213-228 | renaming keeps filenames distinct |
| StorageOps.DeleteOp | src/storage/mod.rs:231-244 | on success the `.pwd` file is gone; no path other than it and the index changes |
| StorageOps.DeleteRemoves | src/storage/mod.rs:231-244 | the saved index drops every entry with the filename and keeps the rest in order |
| StorageOps.DeleteTwice | src/storage/mod.rs:238-243 | a second delete of the same file also succeeds and changes no entry |
| StorageOps.FindAfterDelete | src/storage/mod.rs:231-258 | a deleted file name is never found again |
| StorageOps.DeleteKeepsUnique | src/storage/mod.rs:231-244 | deletion keeps filenames distinct |
| Storage.PasswordStorage.constructor | src/storage/mod.rs:16-21 | the storage keeps the given directory |
| Storage.PasswordStorage.LoadDefFile | src/storage/mod.rs:41-71 | returns `LoadDef` of the current files |
| Storage.PasswordStorage.SaveDefFile | src/storage/mod.rs:74-90 | result and files as `SaveDefOp` |
| Storage.PasswordStorage.EncryptFilename | src/storage/mod.rs:93-99 | returns `EncryptName` |
| Storage.PasswordStorage.DecryptFilename | src/storage/mod.rs:102-111 | returns `DecryptName` |
| Storage.PasswordStorage.SavePasswordFile | src/storage/mod.rs:114-135 | result and files as `SavePasswordOp` |
| Storage.PasswordStorage.LoadPasswordFile | src/storage/mod.rs:138-153 | returns `LoadPasswordOp` |
| Storage.PasswordStorage.UpdatePasswordFile | src/storage/mod.rs:156-175 | result and files as `UpdatePasswordOp` |
| Storage.PasswordStorage.ListDecryptedNames | src/storage/mod.rs:178-188 | the loop's result is `ListOp`: one pair per entry in order, or the first error |
| Storage.PasswordStorage.DecryptNames | src/storage/mod.rs:180-187 | the decrypting loop returns `DecryptAll`: every name in order, or the first failure |
| Storage.PasswordStorage.AddEntry | src/storage/mod.rs:191-210 | result and files as `AddOp` |
| Storage.PasswordStorage.UpdateEntry | src/storage/mod.rs:213-228 | the in-place loop leaves result and files as `UpdateOp` |
| Storage.PasswordStorage.RenameFirstInPlace | src/storage/mod.rs:217-224 | the `&mut` loop renames the first entry naming the file and stops, leaving the list as `UpdatedEntries` |
| Storage.PasswordStorage.RenameAt | src/storage/mod.rs:218-222 | the matching iteration seals the new name and replaces that entry's name and nonce, which is `RenameFirst` when no earlier entry matched |
| Storage.PasswordStorage.DeleteEntry | src/storage/mod.rs:231-244 | the retain loop and the conditional removal leave result and files as `DeleteOp` |
| Storage.PasswordStorage.RetainOthers | src/storage/mod.rs:233 | `retain` keeps exactly the entries not naming the file, in order (`RemoveAll`) |
| Storage.PasswordStorage.FindFilenameByName | src/storage/mod.rs:247-258 | the early-return loop returns `FindOp` |
| Localization.FromCode | src/i18n/mod.rs:22-28 | "en" gives English, "zh" Chinese, and every other code Russian |
| Localization.ToCode | src/i18n/mod.rs:30-36 | a two-letter code that `from_code` maps back to the language |
| Localization.ToCodeOfFromCode | src/i18n/mod.rs:22-36 | the three codes survive a round trip |
| Localization.Default | src/i18n/mod.rs:15-19 | the default is English, which no unknown code selects |
| Localization.DisplayName | src/i18n/mod.rs:38-44 | every language has a non-empty name |
| Localization.DisplayNameInjective | src/i18n/mod.rs:38-44 | different languages have different names |
| Localization.All | src/i18n/mod.rs:46-48 | three languages, each once, every language listed |
| Localization.SelectionIndexOf | src/tui/mod.rs:162-166 | the selection screen's starting row is a row of the list |
| Localization.SelectionIndexAgrees | src/tui/mod.rs:162-166 | for "ru", "en" and "zh" the starting row is the language in use |
| Localization.SelectionIndexDisagrees | src/tui/mod.rs:162-166 | for other codes the interface is Russian but the starting row is English |
| Localization.TableFor | src/i18n/mod.rs:102-514 | each table has the sample keys |
| Localization.Lookup | src/i18n/mod.rs:85-90 | the translation when the key is present, else the key itself |
| Localization.TablesDiffer | src/i18n/mod.rs:102-514 | the three tables translate the settings title differently |
| Localization.I18n.constructor | src/i18n/mod.rs:57-64 | the translator starts in the given language with that language's table |
| Localization.I18n.SetLanguage | src/i18n/mod.rs:66-70 | afterwards the language is the new one and the table is its table |
| Localization.I18n.GetLanguage | src/i18n/mod.rs:72-74 | the language whose table is loaded |
| Localization.I18n.LoadTranslations | src/i18n/mod.rs:76-83 | the table becomes the current language's |
| Localization.I18n.T | src/i18n/mod.rs:85-99 | the table's translation, or the key itself when absent |
| Localization.SwitchAndTranslate | src/i18n/mod.rs:66-90 | after a switch, `get_language` is the new language and lookups use its table |
| Generator.TrimStart | src/tui/mod.rs:1154 | drops exactly the leading white space |
| Generator.TrimEnd | src/tui/mod.rs:1154 | drops exactly the trailing white space |
| Generator.Leading | src/tui/mod.rs:1154 | the count of leading white-space characters: all before it are white space, the one at it is not |
| Generator.Trim | src/tui/mod.rs:1154 | the slice starting after the leading white space; everything after it is white space; it neither starts nor ends with white space |
| Generator.ParseUsize | src/tui/mod.rs:1154-1155 | a parsed length is at most 2^64-1 and comes from a non-empty digit string |
| Generator.ParseDecimal | src/tui/mod.rs:1154-1155 | decimal text, with or without '+', parses to its value |
| Generator.ParseRejectsMinus | src/tui/mod.rs:1154-1155 | a leading '-' never parses |
| Generator.ParseRejectsOverflow | src/tui/mod.rs:1154-1155 | a value above 2^64-1 does not parse |
| Generator.WithoutMembers | src/tui/mod.rs:1182-1183 | a character is kept iff it was there and is not excluded |
| Generator.AvailableMembers | src/tui/mod.rs:1166-1183 | available iff in a chosen set and not excluded |
| Generator.AvailableWithoutExclusions | src/tui/mod.rs:1166-1188 | with a set chosen and nothing excluded, some character is available |
| Generator.Draw | src/tui/mod.rs:1192-1197 | exactly `length` characters, each drawn from the available ones |
| Generator.Generated | src/tui/mod.rs:1141-1200 | the errors in order (no set, bad length, below 1, above 256, nothing left); Ok iff all checks pass; the password has the parsed length and only available characters |
| Generator.NoCharsLeftOnlyAfterLength | src/tui/mod.rs:1157-1188 | "no characters left" is reported only after a valid length |
| Generator.Retain | src/tui/mod.rs:1182-1183 | the retain loop leaves the non-excluded characters in order |
| Generator.AvailableChars | src/tui/mod.rs:1166-1183 | the extend steps and the retain give the available characters |
| Generator.DrawPassword | src/tui/mod.rs:1192-1197 | the drawing loop builds `Draw` |
| Generator.GeneratePassword | src/tui/mod.rs:1141-1200 | the step-by-step generator returns `Generated` |
| Tui.Provisioned | src/tui/mod.rs:240-248 | the hash is always replaced; a stored salt is kept; only a missing one becomes the drawn salt, unpadded |
| Tui.DecodeSalt | src/tui/mod.rs:295-299 | Ok iff the unpadded or the padded decoder accepts, preferring unpadded; otherwise the Crypto "Invalid salt" error |
| Tui.DecodeSaltOfEncoded | src/tui/mod.rs:295-299 | salts written in either format decode to their bytes |
| Tui.SaltFor | src/tui/mod.rs:295-315 | fails iff a stored salt does not decode; the hash is untouched and a salt is stored afterwards |
| Tui.SaltForStable | src/tui/mod.rs:295-315 | once a salt is chosen, every later unlock uses the same bytes |
| Tui.ProvisionedUnlocks | src/tui/mod.rs:240-315 | after provisioning, the new master password verifies and a new vault uses the drawn salt |
| Tui.EnterStepsAsWritten | src/tui/mod.rs:183-317 | as written, every branch that does not reset ends in key derivation |
| Tui.EnterOnDirectoryFieldOpensVault | src/tui/mod.rs:186-206 | as written, Enter on the first two fields of a new vault derives a key without storing a hash |
| Tui.EnterSteps | src/tui/mod.rs:183-317 | Enter as intended always does something |
| Tui.EnterOpensOnlyAfterCheck | src/tui/mod.rs:183-317 | as intended, a new vault opens only from the confirmation field with matching entries after storing the hash; an existing vault only after verification; the first two fields only move on |
| Tui.CycleDown | src/tui/mod.rs:357-361 | the next field is always a valid field |
| Tui.CycleUp | src/tui/mod.rs:347-356 | from a valid field, the previous field is valid (wrapping from 0 to the last) |
| Tui.CycleDownStep | src/tui/mod.rs:357-361 | Down goes to the next field, and from the last field to the first |
| Tui.CycleInverse | src/tui/mod.rs:347-361 | Up undoes Down and Down undoes Up |
| Tui.CycleDownTimesWraps | src/tui/mod.rs:357-361 | k presses of Down move k fields on, wrapping past the last |
| Tui.FullCycle | src/tui/mod.rs:357-361 | as many Downs as there are fields return to the start |
| Tui.StepUp | src/tui/mod.rs:680-685 | never increases the selection and keeps it in range |
| Tui.StepDown | src/tui/mod.rs:686-692 | never decreases the selection, never moves it past the last item, and keeps it in range |
| Tui.StepInverse | src/tui/mod.rs:680-692 | away from the ends of the list, Up and Down are inverse |
| Tui.Clamp | src/tui/mod.rs:698-700 | the clamped selection is in range and a selection already in range stays |
| Tui.Names | src/tui/mod.rs:331 | the item list is the names of the listing, in order |
| Tui.Aborting | src/tui/mod.rs:597-599 | the held task, if any, is added to the aborted ones |
| Tui.AbortThenSchedule | src/tui/mod.rs:597-643 | aborting the held task and then scheduling one keeps at most one cleanup task live |
| Tui.TuiState.constructor | src/tui/mod.rs:111-167 | creates a master password iff the directory has none; starts on the master password screen with no key; the translator is in the configured language |
| Tui.TuiState.MasterPasswordUp | src/tui/mod.rs:347-356 | only while creating: Up among the 3 fields, wrapping to the last; no other field changes and `Valid()` is kept |
| Tui.TuiState.MasterPasswordDown | src/tui/mod.rs:357-362 | only while creating: (field+1) % 3; no other field changes and `Valid()` is kept |
| Tui.TuiState.PasswordEntryUp | src/tui/mod.rs:444-451 | Up among the 2 fields, wrapping to the last; no other field changes |
| Tui.TuiState.PasswordEntryDown | src/tui/mod.rs:452-455 | (field+1) % 2; no other field changes |
| Tui.TuiState.SettingsUp | src/tui/mod.rs:790-797 | Up among the 4 fields, wrapping to the last; no other field changes |
| Tui.TuiState.SettingsDown | src/tui/mod.rs:798-801 | (field+1) % 4; no other field changes |
| Tui.TuiState.SelectUp | src/tui/mod.rs:680-685 | the selection moves as `StepUp` and is the only field that changes |
| Tui.TuiState.SelectDown | src/tui/mod.rs:686-692 | the selection moves as `StepDown` and is the only field that changes |
| Tui.TuiState.FilterItems | src/tui/mod.rs:1121-1139 | an empty query lists every item in order; otherwise the matcher's ranking; only the shown list changes, and it never holds an item more often than the full list |
| Tui.TuiState.SearchInput | src/tui/mod.rs:708-720 | the query grows by the character, the matcher's ranking is shown and the selection is clamped into it; nothing but query, shown list and selection changes |
| Tui.TuiState.SearchBackspace | src/tui/mod.rs:693-707 | the last character is removed (nothing happens on an empty query), an emptied query lists every item, otherwise the ranking is shown, and the selection is clamped; nothing but query, shown list and selection changes |
| Tui.TuiState.ClearSearch | src/tui/mod.rs:659-671 | a non-empty query is cleared, every item listed and the first selected; nothing but query, shown list and selection changes |
| Tui.TuiState.AbortCleanup | src/tui/mod.rs:597-599 | the held task is taken and aborted |
| Tui.TuiState.ScheduleCleanup | src/tui/mod.rs:634-643 | a fresh task is spawned and its handle held |
| Tui.TuiState.CopySelected | src/tui/mod.rs:585-655 | the old task is aborted before loading; the copied text is the stored secret; a new task is held iff the load and the copy succeed and the timeout is positive; at most one task stays live |
| Tui.TuiState.PlaceSecret | src/tui/mod.rs:602-647 | the clipboard gets the secret only when it loaded and the clipboard accepts it; a cleanup task is then held iff the timeout is positive, with a handle never used before |
| Tui.TuiState.TakeSalt | src/tui/mod.rs:295-315 | the salt and configuration are as `SaltFor` |
| Tui.TuiState.LoadItems | src/tui/mod.rs:327-339 | on success the name map, items and filtered items come from the listing; on failure the item lists are emptied |
| Tui.TuiState.Unlock | src/tui/mod.rs:287-342 | `UnlockedFrom`: a salt or derivation error is returned and leaves the key, screen, inputs and lists unchanged; otherwise the derived key is held, the typed passwords are cleared, the list is loaded (emptied if listing fails) and the main screen shown; the active field never changes |
| Tui.TuiState.StoreKey | src/tui/mod.rs:317-342 | the derived key is held, both typed passwords are cleared and the main screen is current |
| Tui.TuiState.SubmitMasterPassword | src/tui/mod.rs:183-342 | the corrected Enter handler of the second finding: the first two fields of a new vault only move on, and the inputs, configuration, key, screen and lists stay as they were; a mismatch clears both inputs and returns to field 1 with configuration, key, screen and lists unchanged; a match stores the new hash and then unlocks as `UnlockedFrom` states; for an existing vault a wrong, malformed or missing hash clears the input and changes nothing else, and a verified password unlocks; the key changes only on a step that derives it |
| Tui.TuiState.ConfirmNewPassword | src/tui/mod.rs:207-253 | differing entries clear both inputs and return to field 1 with key, screen, configuration and lists unchanged; matching ones store the new hash, keep or draw the salt, derive the key from it, list the vault and show the main screen |
| Tui.TuiState.ProvisionAndUnlock | src/tui/mod.rs:216-342 | the new hash is stored next to a kept or drawn salt, then the vault is unlocked as `UnlockedFrom` states, with the field unchanged and, on a salt or derivation error, the inputs and lists unchanged |
| Tui.TuiState.Provision | src/tui/mod.rs:240-248 | the configuration becomes `Provisioned`: the new hash, with the stored salt kept or the drawn one stored |
| Tui.TuiState.CheckPassword | src/tui/mod.rs:254-342 | with no stored hash, or a password that does not verify, the input is cleared and nothing else changes; a verified password derives the key, clears both inputs, lists the vault and shows the main screen |

## Left out

- I/O is out of scope. This covers terminal setup, event reading, all rendering, the
  theme, and `eprintln!` diagnostics. Config file load and save are out too: the vault
  directory is a parameter and the directory configuration is a field.
- `create_dir_all` is not modelled, because directories are not modelled. File writes
  never fail.
- The directory field of the master password screen is left out. That covers choosing
  the vault directory (`passwords_dir_input`) and rebuilding `PasswordStorage` for it.
- The fuzzy matcher and its score ordering are left out. `filter_items` takes the ranked
  items for a non-empty query as a parameter.
- The clipboard and the tokio timer are left out.
  - Tui.TuiState.CopySelected: opening the clipboard and setting its text are folded into
    one parameter, `clipboardAccepts`.
  - Spawning and aborting tasks are modelled only as bookkeeping: task identifiers in
    ghost lists.
  - The timed clearing itself is concurrent behaviour and is not modelled.
- `derive_key` (Argon2id) is a parameter of Tui.TuiState.Unlock, because its source file
  is not part of this model.
- StorageOps.LoadDefBadJson: the JSON parser reads the compact text the program writes.
  Index text that serde_json would also accept, with whitespace, escaped control characters
  or another field order, counts here as a Serialization error.
- Argon2, AES-256-GCM, serde_json and uuid are left out; symbolic or concrete stand-ins
  take their place. Secrecy and timing properties are not captured.
- Crypto.HashPassword: the hash is always Ok. Argon2's parameter errors cannot arise for
  the default parameters.
- Crypto.VerifyPassword: the PHC grammar is modelled at the level of its fields. The
  character set of parameter names and values, the length limits on salt and output, and
  Argon2's range checks on the costs are not modelled. A missing version or cost is not
  replaced by its default, so the symbolic digest of `$argon2id$m=19456,...` differs from
  that of `$argon2id$v=19$m=19456,...`.
- Zeroizing the typed master password and the copied secret is not modelled. Only
  `SecureKey::drop` is modelled.
- Error messages built with `format!("...: {}", e)` keep only their fixed text; the
  appended error text of the library is not modelled. This covers Tui.DecodeSalt
  ("Invalid salt"), the Crypto messages "Invalid hash format" and "Invalid UTF-8 in
  decrypted data", and the StorageOps messages about invalid UTF-8 in the index or a
  name and invalid base64 in a name, a nonce or a password. "Decryption failed" keeps
  the text `aead::Error` displays.
- Localization.TableFor: only three sample keys of each table are modelled. The tables
  are data, not behaviour.
- Localization.I18n.T: `ts` is the same lookup returning a borrowed string, so it is
  modelled by `T`.
- Storage.PasswordStorage.AddEntry: the save result is not checked. The name was just
  sealed, so the key is 32 bytes and saving cannot fail.
- Tui.TuiState.StoreKey: the main screen is chosen before the vault is listed, not after.
  Listing does not read the screen, so the final state is the same.
- Crash durability is not modelled. Each write replaces the whole file at once.
- Generator.ParseUsize: `usize` is taken as 64 bits.
- Generator.Draw: the uniform random index is modelled as a draw function reduced modulo
  the number of available characters. Uniformity is not modelled.
- The remaining screens' handlers are out of this model: password entry save, generator
  fields, theme and language selection, and settings edits.

## Findings

| source | as written | input that shows it | evidently intended | confidence | as-written member | corrected member |
|---|---|---|---|---|---|---|
| src/crypto/mod.rs:71 | `Nonce::from_slice` panics when the nonce is not 12 bytes, and `decrypt_filename`/`load_password_file` pass nonces decoded from disk without checking their length | a `nonce` field "AAAA" (3 bytes) in the index or in a `.pwd` file, with a 32-byte key | a nonce of the wrong length is reported as a Crypto error | not executed | Crypto.ShortNoncePanics | Crypto.DecryptData |
| src/tui/mod.rs:186-206 | when creating a master password, Enter on the directory field or the password field moves the field and then falls through to key derivation. The vault opens with a key derived from what has been typed so far, without confirmation and without storing a hash | a new vault, Enter on field 0 | the first two fields only move to the next field, as their comments say; Tui.TuiState.SubmitMasterPassword implements this corrected behaviour | not executed | Tui.EnterOnDirectoryFieldOpensVault | Tui.EnterOpensOnlyAfterCheck |
