/**
 * What each `PasswordStorage` operation does to the vault directory, as a function of the
 * files before the call, the key and the random values the call draws (nonces, a UUID).
 * The vault directory holds `def`, a 12-byte nonce followed by the sealed JSON of the
 * index, and one `<uuid>.pwd` file per secret holding JSON with base64 fields.
 */
module StorageOps {
  import opened Prelude
  import opened Errors
  import opened Models
  import opened FileSystem
  import opened Index
  import Utf8
  import Base64
  import Hex
  import Json
  import Crypto

  const DefName: string := "def"
  const PasswordSuffix: string := ".pwd"

  const InvalidDefFormatMessage: string := "Invalid def file format"
  const InvalidUtf8DefMessage: string := "Invalid UTF-8 in def file"
  const InvalidBase64NameMessage: string := "Invalid base64 in encrypted name"
  const InvalidBase64NonceMessage: string := "Invalid base64 in nonce"
  const InvalidUtf8NameMessage: string := "Invalid UTF-8 in decrypted name"
  const InvalidBase64PasswordMessage: string := "Invalid base64 in encrypted password"

  /** The hyphenated lower-case text of a version-4 UUID, as `Uuid::new_v4()` displays. */
  predicate IsUuid(s: string)
  {
    && |s| == 36
    && (forall i :: 0 <= i < |s| ==>
          if i == 8 || i == 13 || i == 18 || i == 23 then s[i] == '-' else Hex.IsHexDigit(s[i]))
    && s[14] == '4'
    && (s[19] == '8' || s[19] == '9' || s[19] == 'a' || s[19] == 'b')
  }

  /** A fresh name drawn by `Uuid::new_v4()`. */
  type Uuid = s: string | IsUuid(s) witness "00000000-0000-4000-8000-000000000000"

  function DefPath(dir: Path): Path
  {
    Join(dir, DefName)
  }

  /** `format!("{}.pwd", uuid)`. */
  function PasswordFileName(id: Uuid): (f: string)
    ensures |f| == 40 && f != DefName
  {
    id + PasswordSuffix
  }

  /** The outcome of an operation and the files after it. */
  datatype Effect<+T> = Effect(result: Result<T>, files: map<Path, Bytes>)

  /** Every path other than the index has the same contents before and after. */
  ghost predicate OnlyIndexChanged(before: map<Path, Bytes>, after: map<Path, Bytes>, dir: Path)
  {
    forall p :: p != DefPath(dir) ==> (p in after <==> p in before) && (p in after ==> after[p] == before[p])
  }

  // ---------------------------------------------------------------------------
  // The index file
  // ---------------------------------------------------------------------------

  /** `load_def_file`. */
  function LoadDef(files: map<Path, Bytes>, dir: Path, key: Bytes): (r: Result<DefFile>)
    ensures DefPath(dir) !in files ==> r == Ok(DefFile([]))
    ensures DefPath(dir) in files && |files[DefPath(dir)]| < Crypto.NonceLength ==>
              r == Err(Crypto(InvalidDefFormatMessage))
    ensures r.Err? ==> r.error.Crypto? || r.error.Serialization?
  {
    if DefPath(dir) !in files then Ok(DefFile([]))
    else
      var content := files[DefPath(dir)];
      if |content| < Crypto.NonceLength then Err(Crypto(InvalidDefFormatMessage))
      else
        var plaintext :- Crypto.DecryptData(content[Crypto.NonceLength..], content[..Crypto.NonceLength], key);
        match Utf8.Decode(plaintext)
        case None => Err(Crypto(InvalidUtf8DefMessage))
        case Some(json) =>
          match Json.ParseDefFile(json)
          case None => Err(Serialization)
          case Some(d) => Ok(d)
  }

  /** Loading the index reads the index file and nothing else. */
  lemma LoadDefSameIndex(f1: map<Path, Bytes>, f2: map<Path, Bytes>, dir: Path, key: Bytes)
    requires DefPath(dir) in f1 <==> DefPath(dir) in f2
    requires DefPath(dir) in f1 ==> f1[DefPath(dir)] == f2[DefPath(dir)]
    ensures LoadDef(f1, dir, key) == LoadDef(f2, dir, key)
  {
  }

  /** The bytes `save_def_file` writes: the nonce, then the sealed JSON text. */
  function DefBlob(d: DefFile, key: Bytes, nonce: Crypto.Nonce): (r: Result<Bytes>)
    ensures r.Err? <==> |key| != Crypto.KeyLength
    ensures r.Err? ==> r.error == Crypto(Crypto.KeyLengthMessage)
    ensures r.Ok? ==> r.value == nonce + Crypto.Seal(key, nonce, Utf8.Encode(Json.EncodeDefFile(d)))
  {
    var (c, n) :- Crypto.EncryptData(Utf8.Encode(Json.EncodeDefFile(d)), key, nonce);
    Ok(n + c)
  }

  /** `save_def_file`: on success the index file is replaced and nothing else changes. */
  function SaveDefOp(files: map<Path, Bytes>, dir: Path, d: DefFile, key: Bytes,
                     nonce: Crypto.Nonce): (r: Effect<()>)
    ensures r.result.Err? ==> r.files == files && r.result.error == Crypto(Crypto.KeyLengthMessage)
    ensures r.result.Ok? <==> |key| == Crypto.KeyLength
    ensures r.result.Ok? ==> r.files == files[DefPath(dir) := DefBlob(d, key, nonce).value]
  {
    match DefBlob(d, key, nonce)
    case Err(e) => Effect(Err(e), files)
    case Ok(blob) => Effect(Ok(()), files[DefPath(dir) := blob])
  }

  /** Loading the index after saving it with the same key gives the saved index back. */
  lemma LoadDefAfterSave(files: map<Path, Bytes>, dir: Path, d: DefFile, key: Bytes,
                         nonce: Crypto.Nonce)
    requires |key| == Crypto.KeyLength
    ensures SaveDefOp(files, dir, d, key, nonce).result.Ok?
    ensures LoadDef(SaveDefOp(files, dir, d, key, nonce).files, dir, key) == Ok(d)
  {
    var json := Json.EncodeDefFile(d);
    var p := Utf8.Encode(json);
    var blob := nonce + Crypto.Seal(key, nonce, p);
    assert blob[..Crypto.NonceLength] == nonce;
    assert blob[Crypto.NonceLength..] == Crypto.Seal(key, nonce, p);
    Crypto.OpenSeal(key, nonce, p);
    Utf8.DecodeEncode(json);
    Json.ParseEncodeDefFile(d);
  }

  /** An index saved under one key cannot be loaded with any other key. */
  lemma LoadDefOtherKey(files: map<Path, Bytes>, dir: Path, d: DefFile, key: Bytes,
                        nonce: Crypto.Nonce, key2: Bytes)
    requires |key| == Crypto.KeyLength && key2 != key
    ensures LoadDef(SaveDefOp(files, dir, d, key, nonce).files, dir, key2).Err?
    ensures LoadDef(SaveDefOp(files, dir, d, key, nonce).files, dir, key2).error.Crypto?
  {
    var p := Utf8.Encode(Json.EncodeDefFile(d));
    var blob := nonce + Crypto.Seal(key, nonce, p);
    assert blob[..Crypto.NonceLength] == nonce;
    assert blob[Crypto.NonceLength..] == Crypto.Seal(key, nonce, p);
    if |key2| == Crypto.KeyLength {
      Crypto.OpenOtherKeyOrNonce(key, nonce, key2, nonce, p);
    }
  }

  /** An index whose plaintext is not UTF-8 is a `Crypto` error. */
  lemma LoadDefInvalidUtf8(files: map<Path, Bytes>, dir: Path, key: Bytes, nonce: Crypto.Nonce,
                           p: Bytes)
    requires |key| == Crypto.KeyLength && Utf8.Decode(p).None?
    requires DefPath(dir) in files && files[DefPath(dir)] == nonce + Crypto.Seal(key, nonce, p)
    ensures LoadDef(files, dir, key) == Err(Crypto(InvalidUtf8DefMessage))
  {
    var blob := files[DefPath(dir)];
    assert blob[..Crypto.NonceLength] == nonce;
    assert blob[Crypto.NonceLength..] == Crypto.Seal(key, nonce, p);
    Crypto.OpenSeal(key, nonce, p);
  }

  /** An index whose plaintext is text but not an index document is a `Serialization` error. */
  lemma LoadDefBadJson(files: map<Path, Bytes>, dir: Path, key: Bytes, nonce: Crypto.Nonce,
                       json: string)
    requires |key| == Crypto.KeyLength && Json.ParseDefFile(json).None?
    requires DefPath(dir) in files
    requires files[DefPath(dir)] == nonce + Crypto.Seal(key, nonce, Utf8.Encode(json))
    ensures LoadDef(files, dir, key) == Err(Serialization)
  {
    var p := Utf8.Encode(json);
    var blob := files[DefPath(dir)];
    assert blob[..Crypto.NonceLength] == nonce;
    assert blob[Crypto.NonceLength..] == Crypto.Seal(key, nonce, p);
    Crypto.OpenSeal(key, nonce, p);
    Utf8.DecodeEncode(json);
  }

  // ---------------------------------------------------------------------------
  // Sealed display names
  // ---------------------------------------------------------------------------

  /** `encrypt_filename`: base64 of the sealed name and of its nonce. */
  function EncryptName(name: string, key: Bytes, nonce: Crypto.Nonce): (r: Result<(string, string)>)
    ensures r.Err? <==> |key| != Crypto.KeyLength
    ensures r.Err? ==> r.error == Crypto(Crypto.KeyLengthMessage)
  {
    var (c, n) :- Crypto.EncryptData(Utf8.Encode(name), key, nonce);
    Ok((Base64.EncodePadded(c), Base64.EncodePadded(n)))
  }

  /** `decrypt_filename`, with the nonce length checked by `DecryptData`. */
  function DecryptName(encryptedName: string, nonce: string, key: Bytes): (r: Result<string>)
    ensures r.Err? ==> r.error.Crypto?
  {
    match Base64.DecodePadded(encryptedName)
    case None => Err(Crypto(InvalidBase64NameMessage))
    case Some(c) =>
      match Base64.DecodePadded(nonce)
      case None => Err(Crypto(InvalidBase64NonceMessage))
      case Some(n) =>
        var p :- Crypto.DecryptData(c, n, key);
        match Utf8.Decode(p)
        case None => Err(Crypto(InvalidUtf8NameMessage))
        case Some(s) => Ok(s)
  }

  /** The sealed name and nonce `encrypt_filename` gives under a 32-byte key. */
  function SealedName(name: string, key: Bytes, nonce: Crypto.Nonce): (r: (string, string))
    requires |key| == Crypto.KeyLength
    ensures DecryptName(r.0, r.1, key) == Ok(name)
  {
    DecryptEncryptName(name, key, nonce);
    EncryptName(name, key, nonce).value
  }

  /** A name sealed with a 32-byte key decrypts back to itself. */
  lemma DecryptEncryptName(name: string, key: Bytes, nonce: Crypto.Nonce)
    requires |key| == Crypto.KeyLength
    ensures EncryptName(name, key, nonce).Ok?
    ensures var (en, nn) := EncryptName(name, key, nonce).value; DecryptName(en, nn, key) == Ok(name)
  {
    var c := Crypto.Seal(key, nonce, Utf8.Encode(name));
    Base64.DecodeEncodePadded(c);
    Base64.DecodeEncodePadded(nonce);
    Crypto.DecryptEncryptData(Utf8.Encode(name), key, nonce);
    Utf8.DecodeEncode(name);
  }

  /**
   * Pairs each entry's file name with the name `dec` gives it, in index order; the first
   * entry `dec` fails on ends the listing with that error.
   */
  function ListWith(es: seq<DefFileEntry>, dec: DefFileEntry -> Result<string>): (r: Result<seq<(string, string)>>)
    ensures r.Ok? ==> |r.value| == |es|
    decreases |es|
  {
    if es == [] then Ok([])
    else
      var last := es[|es| - 1];
      var names :- ListWith(es[..|es| - 1], dec);
      var name :- dec(last);
      Ok(names + [(last.encryptedFilename, name)])
  }

  /** The listing succeeds exactly when every entry's name decrypts. */
  lemma {:induction false} ListWithOk(es: seq<DefFileEntry>, dec: DefFileEntry -> Result<string>)
    ensures ListWith(es, dec).Ok? <==> forall i :: 0 <= i < |es| ==> dec(es[i]).Ok?
    decreases |es|
  {
    if es != [] {
      var init := es[..|es| - 1];
      ListWithOk(init, dec);
      assert forall i :: 0 <= i < |init| ==> init[i] == es[i];
    }
  }

  /** A successful listing pairs each entry's file name with its decrypted name, in index order. */
  lemma {:induction false} ListWithValues(es: seq<DefFileEntry>, dec: DefFileEntry -> Result<string>)
    requires ListWith(es, dec).Ok?
    ensures forall i :: 0 <= i < |es| ==>
              dec(es[i]).Ok? && ListWith(es, dec).value[i] == (es[i].encryptedFilename, dec(es[i]).value)
    decreases |es|
  {
    ListWithOk(es, dec);
    if es != [] {
      var init := es[..|es| - 1];
      ListWithValues(init, dec);
      forall i | 0 <= i < |es|
        ensures dec(es[i]).Ok? && ListWith(es, dec).value[i] == (es[i].encryptedFilename, dec(es[i]).value)
      {
        if i < |init| {
          assert init[i] == es[i];
        }
      }
    }
  }

  /** Once a prefix fails, the whole listing fails with the same error. */
  lemma {:induction false} ListWithPrefixErr(es: seq<DefFileEntry>, dec: DefFileEntry -> Result<string>, n: nat)
    requires n <= |es| && ListWith(es[..n], dec).Err?
    ensures ListWith(es, dec) == ListWith(es[..n], dec)
    decreases |es| - n
  {
    if n < |es| {
      assert es[..n + 1][..n] == es[..n];
      ListWithPrefixErr(es, dec, n + 1);
    } else {
      assert es[..n] == es;
    }
  }

  /** The decryption of one entry's display name. */
  function NameOf(key: Bytes): DefFileEntry -> Result<string>
  {
    (e: DefFileEntry) => DecryptName(e.encryptedName, e.nonce, key)
  }

  /** `list_decrypted_names` over an entry list. */
  function DecryptAll(es: seq<DefFileEntry>, key: Bytes): (r: Result<seq<(string, string)>>)
    ensures r.Ok? ==> |r.value| == |es|
  {
    ListWith(es, NameOf(key))
  }

  /** `list_decrypted_names`. */
  function ListOp(files: map<Path, Bytes>, dir: Path, key: Bytes): (r: Result<seq<(string, string)>>)
  {
    var d :- LoadDef(files, dir, key);
    DecryptAll(d.entries, key)
  }

  /**
   * `find_filename_by_name` over an entry list: the file name of the first entry whose
   * name decrypts to `name`; entries are decrypted in order and the first failure ends the
   * search with its error.
   */
  function FindByName(es: seq<DefFileEntry>, name: string, key: Bytes): (r: Result<Option<string>>)
    ensures r.Ok? && r.value.Some? ==> r.value.value in Filenames(es)
  {
    if es == [] then Ok(None)
    else
      var n :- DecryptName(es[0].encryptedName, es[0].nonce, key);
      if n == name then Ok(Some(es[0].encryptedFilename))
      else FindByName(es[1..], name, key)
  }

  /** `find_filename_by_name`. */
  function FindOp(files: map<Path, Bytes>, dir: Path, name: string, key: Bytes): (r: Result<Option<string>>)
  {
    var d :- LoadDef(files, dir, key);
    FindByName(d.entries, name, key)
  }

  /** The first pair of a listing that carries `name`. */
  function FirstMatch(pairs: seq<(string, string)>, name: string): Option<string>
  {
    if pairs == [] then None
    else if pairs[0].1 == name then Some(pairs[0].0)
    else FirstMatch(pairs[1..], name)
  }

  lemma {:induction false} FindByNameAgrees(es: seq<DefFileEntry>, name: string, key: Bytes)
    requires DecryptAll(es, key).Ok?
    ensures FindByName(es, name, key) == Ok(FirstMatch(DecryptAll(es, key).value, name))
  {
    if es != [] {
      var dec := NameOf(key);
      ListWithOk(es, dec);
      ListWithOk(es[1..], dec);
      assert forall i :: 0 <= i < |es[1..]| ==> es[1..][i] == es[i + 1];
      ListWithValues(es, dec);
      ListWithValues(es[1..], dec);
      var pairs := DecryptAll(es, key).value;
      var rest := DecryptAll(es[1..], key).value;
      assert pairs[0] == (es[0].encryptedFilename, DecryptName(es[0].encryptedName, es[0].nonce, key).value);
      assert pairs[1..] == rest;
      FindByNameAgrees(es[1..], name, key);
    }
  }

  /** Finding by name gives the first match of the listing, whenever the listing succeeds. */
  lemma FindAgreesWithList(files: map<Path, Bytes>, dir: Path, name: string, key: Bytes)
    requires ListOp(files, dir, key).Ok?
    ensures FindOp(files, dir, name, key) == Ok(FirstMatch(ListOp(files, dir, key).value, name))
  {
    FindByNameAgrees(LoadDef(files, dir, key).value.entries, name, key);
  }

  lemma {:induction false} FirstMatchAppend(pairs: seq<(string, string)>, p: (string, string), name: string)
    requires forall i :: 0 <= i < |pairs| ==> pairs[i].1 != name
    requires p.1 == name
    ensures FirstMatch(pairs + [p], name) == Some(p.0)
  {
    if pairs == [] {
    } else {
      assert (pairs + [p])[1..] == pairs[1..] + [p];
      FirstMatchAppend(pairs[1..], p, name);
    }
  }

  // ---------------------------------------------------------------------------
  // Secret records
  // ---------------------------------------------------------------------------

  /** The record `save_password_file` and `update_password_file` write. */
  function PasswordRecord(password: string, key: Bytes, nonce: Crypto.Nonce): (r: Result<PasswordFile>)
    ensures r.Err? <==> |key| != Crypto.KeyLength
    ensures r.Err? ==> r.error == Crypto(Crypto.KeyLengthMessage)
  {
    var (c, n) :- Crypto.EncryptPassword(password, key, nonce);
    Ok(PasswordFile(Base64.EncodePadded(c), Base64.EncodePadded(n)))
  }

  /** `save_password_file`: a new `<uuid>.pwd` file; its name is returned. */
  function SavePasswordOp(files: map<Path, Bytes>, dir: Path, password: string, key: Bytes,
                          nonce: Crypto.Nonce, id: Uuid): (r: Effect<string>)
    ensures r.result.Err? <==> |key| != Crypto.KeyLength
    ensures r.result.Err? ==> r.files == files
    ensures r.result.Ok? ==> r.result.value == PasswordFileName(id)
    ensures r.result.Ok? ==> r.files.Keys == files.Keys + {Join(dir, PasswordFileName(id))}
    ensures r.result.Ok? ==>
              r.files[Join(dir, PasswordFileName(id))]
              == Utf8.Encode(Json.EncodePasswordFile(PasswordRecord(password, key, nonce).value))
    ensures forall p :: p != Join(dir, PasswordFileName(id)) && p in files ==> r.files[p] == files[p]
  {
    match PasswordRecord(password, key, nonce)
    case Err(e) => Effect(Err(e), files)
    case Ok(pf) =>
      var filename := PasswordFileName(id);
      Effect(Ok(filename), files[Join(dir, filename) := Utf8.Encode(Json.EncodePasswordFile(pf))])
  }

  /** `update_password_file`: the named file is replaced, whether or not it existed. */
  function UpdatePasswordOp(files: map<Path, Bytes>, dir: Path, filename: string, password: string,
                            key: Bytes, nonce: Crypto.Nonce): (r: Effect<()>)
    ensures r.result.Err? <==> |key| != Crypto.KeyLength
    ensures r.result.Err? ==> r.files == files
    ensures r.result.Ok? ==> r.files.Keys == files.Keys + {Join(dir, filename)}
    ensures r.result.Ok? ==>
              r.files[Join(dir, filename)] == Utf8.Encode(Json.EncodePasswordFile(PasswordRecord(password, key, nonce).value))
    ensures forall p :: p != Join(dir, filename) && p in files ==> r.files[p] == files[p]
  {
    match PasswordRecord(password, key, nonce)
    case Err(e) => Effect(Err(e), files)
    case Ok(pf) => Effect(Ok(()), files[Join(dir, filename) := Utf8.Encode(Json.EncodePasswordFile(pf))])
  }

  /**
   * `load_password_file`. An `Io` error comes only from reading the file (missing, or not
   * text); a record that does not parse is `Serialization`; bad base64 or a failed
   * decryption is `Crypto`.
   */
  function LoadPasswordOp(files: map<Path, Bytes>, dir: Path, filename: string, key: Bytes): (r: Result<string>)
    ensures Join(dir, filename) !in files ==> r == Err(Io(NotFound))
    ensures (r.Err? && r.error.Io?) <==>
              Join(dir, filename) !in files || Utf8.Decode(files[Join(dir, filename)]).None?
  {
    var json :- ReadFileToString(files, Join(dir, filename));
    match Json.ParsePasswordFile(json)
    case None => Err(Serialization)
    case Some(pf) =>
      match Base64.DecodePadded(pf.encryptedPassword)
      case None => Err(Crypto(InvalidBase64PasswordMessage))
      case Some(c) =>
        match Base64.DecodePadded(pf.nonce)
        case None => Err(Crypto(InvalidBase64NonceMessage))
        case Some(n) => Crypto.DecryptPassword(c, n, key)
  }

  /** A record written for `password` loads back as `password`. */
  lemma LoadWrittenRecord(files: map<Path, Bytes>, dir: Path, filename: string, password: string,
                          key: Bytes, nonce: Crypto.Nonce)
    requires |key| == Crypto.KeyLength
    ensures var pf := PasswordRecord(password, key, nonce).value;
            var path := Join(dir, filename);
            LoadPasswordOp(files[path := Utf8.Encode(Json.EncodePasswordFile(pf))], dir, filename, key)
              == Ok(password)
  {
    var c := Crypto.Seal(key, nonce, Utf8.Encode(password));
    var pf := PasswordRecord(password, key, nonce).value;
    ReadWrittenString(files, Join(dir, filename), Json.EncodePasswordFile(pf));
    Json.ParseEncodePasswordFile(pf);
    Base64.DecodeEncodePadded(c);
    Base64.DecodeEncodePadded(nonce);
    Crypto.DecryptEncryptPassword(password, key, nonce);
  }

  /** A saved secret loads back from the returned file name. */
  lemma LoadAfterSavePassword(files: map<Path, Bytes>, dir: Path, password: string, key: Bytes,
                              nonce: Crypto.Nonce, id: Uuid)
    requires |key| == Crypto.KeyLength
    ensures var r := SavePasswordOp(files, dir, password, key, nonce, id);
            r.result == Ok(PasswordFileName(id)) && LoadPasswordOp(r.files, dir, r.result.value, key) == Ok(password)
  {
    LoadWrittenRecord(files, dir, PasswordFileName(id), password, key, nonce);
  }

  /** An updated secret loads back as the new value. */
  lemma LoadAfterUpdatePassword(files: map<Path, Bytes>, dir: Path, filename: string, password: string,
                                key: Bytes, nonce: Crypto.Nonce)
    requires |key| == Crypto.KeyLength
    ensures var r := UpdatePasswordOp(files, dir, filename, password, key, nonce);
            r.result == Ok(()) && LoadPasswordOp(r.files, dir, filename, key) == Ok(password)
  {
    LoadWrittenRecord(files, dir, filename, password, key, nonce);
  }

  // ---------------------------------------------------------------------------
  // Index edits
  // ---------------------------------------------------------------------------

  /** The entry `add_entry` appends. */
  function NewEntry(name: string, key: Bytes, nameNonce: Crypto.Nonce, id: Uuid): (e: DefFileEntry)
    requires |key| == Crypto.KeyLength
    ensures e.encryptedFilename == PasswordFileName(id)
    ensures DecryptName(e.encryptedName, e.nonce, key) == Ok(name)
  {
    var (en, nn) := SealedName(name, key, nameNonce);
    DefFileEntry(PasswordFileName(id), en, nn)
  }

  /**
   * `add_entry`: load, push one entry with a fresh file name, save; the file name is
   * returned. Once the name is sealed the key is known to be 32 bytes, so the save
   * cannot fail.
   */
  function AddOp(files: map<Path, Bytes>, dir: Path, name: string, key: Bytes,
                 nameNonce: Crypto.Nonce, defNonce: Crypto.Nonce, id: Uuid): (r: Effect<string>)
    ensures r.result.Err? ==> r.files == files
    ensures r.result.Ok? ==> r.result.value == PasswordFileName(id)
    ensures OnlyIndexChanged(files, r.files, dir)
  {
    match LoadDef(files, dir, key)
    case Err(e) => Effect(Err(e), files)
    case Ok(d) =>
      match EncryptName(name, key, nameNonce)
      case Err(e) => Effect(Err(e), files)
      case Ok((en, nn)) =>
        var filename := PasswordFileName(id);
        var s := SaveDefOp(files, dir, DefFile(d.entries + [DefFileEntry(filename, en, nn)]), key, defNonce);
        Effect(Ok(filename), s.files)
  }

  /**
   * After `add_entry` the index is the old one with exactly one entry appended: it names
   * the returned file, and its name decrypts to the given name.
   */
  lemma AddAppends(files: map<Path, Bytes>, dir: Path, name: string, key: Bytes,
                   nameNonce: Crypto.Nonce, defNonce: Crypto.Nonce, id: Uuid)
    requires |key| == Crypto.KeyLength && LoadDef(files, dir, key).Ok?
    ensures var r := AddOp(files, dir, name, key, nameNonce, defNonce, id);
            && r.result == Ok(PasswordFileName(id))
            && LoadDef(r.files, dir, key)
               == Ok(DefFile(LoadDef(files, dir, key).value.entries + [NewEntry(name, key, nameNonce, id)]))
  {
    var es := LoadDef(files, dir, key).value.entries;
    var e := NewEntry(name, key, nameNonce, id);
    LoadDefAfterSave(files, dir, DefFile(es + [e]), key, defNonce);
  }

  /** With a file name not yet in the index, adding keeps file names unique. */
  lemma AddKeepsUnique(files: map<Path, Bytes>, dir: Path, name: string, key: Bytes,
                       nameNonce: Crypto.Nonce, defNonce: Crypto.Nonce, id: Uuid)
    requires |key| == Crypto.KeyLength && LoadDef(files, dir, key).Ok?
    requires UniqueFilenames(LoadDef(files, dir, key).value.entries)
    requires !HasFilename(LoadDef(files, dir, key).value.entries, PasswordFileName(id))
    ensures var files' := AddOp(files, dir, name, key, nameNonce, defNonce, id).files;
            LoadDef(files', dir, key).Ok? && UniqueFilenames(LoadDef(files', dir, key).value.entries)
  {
    AddAppends(files, dir, name, key, nameNonce, defNonce, id);
    AppendKeepsUnique(LoadDef(files, dir, key).value.entries, NewEntry(name, key, nameNonce, id));
  }

  /** A name that no entry had before is found, after adding it, at the new entry. */
  lemma FindAfterAdd(files: map<Path, Bytes>, dir: Path, name: string, key: Bytes,
                     nameNonce: Crypto.Nonce, defNonce: Crypto.Nonce, id: Uuid)
    requires |key| == Crypto.KeyLength && ListOp(files, dir, key).Ok?
    requires forall i :: 0 <= i < |ListOp(files, dir, key).value| ==> ListOp(files, dir, key).value[i].1 != name
    ensures FindOp(AddOp(files, dir, name, key, nameNonce, defNonce, id).files, dir, name, key)
            == Ok(Some(PasswordFileName(id)))
  {
    var es := LoadDef(files, dir, key).value.entries;
    var pairs := ListOp(files, dir, key).value;
    var e := NewEntry(name, key, nameNonce, id);
    AddAppends(files, dir, name, key, nameNonce, defNonce, id);
    var files' := AddOp(files, dir, name, key, nameNonce, defNonce, id).files;
    var es' := es + [e];
    assert es'[..|es'| - 1] == es;
    var p := (PasswordFileName(id), name);
    assert DecryptAll(es', key) == Ok(pairs + [p]);
    FindAgreesWithList(files', dir, name, key);
    FirstMatchAppend(pairs, p, name);
  }

  /** An index with entries was read from a file, so the key that read it is 32 bytes. */
  lemma LoadDefEntriesKey(files: map<Path, Bytes>, dir: Path, key: Bytes)
    requires LoadDef(files, dir, key).Ok? && LoadDef(files, dir, key).value.entries != []
    ensures |key| == Crypto.KeyLength
  {
  }

  /**
   * `update_entry`: load, re-seal the name of the first matching entry (if any), save.
   * A matching entry means the index was read with the key, so sealing cannot fail.
   */
  function UpdateOp(files: map<Path, Bytes>, dir: Path, filename: string, newName: string,
                    key: Bytes, nameNonce: Crypto.Nonce, defNonce: Crypto.Nonce): (r: Effect<()>)
    ensures r.result.Err? ==> r.files == files
    ensures OnlyIndexChanged(files, r.files, dir)
  {
    match LoadDef(files, dir, key)
    case Err(e) => Effect(Err(e), files)
    case Ok(d) =>
      if HasFilename(d.entries, filename) then
        LoadDefEntriesKey(files, dir, key);
        var (en, nn) := SealedName(newName, key, nameNonce);
        SaveDefOp(files, dir, DefFile(RenameFirst(d.entries, filename, en, nn)), key, defNonce)
      else SaveDefOp(files, dir, d, key, defNonce)
  }

  /** The entries `update_entry` saves: the first one naming the file re-sealed, if any. */
  function UpdatedEntries(es: seq<DefFileEntry>, filename: string, newName: string, key: Bytes,
                          nameNonce: Crypto.Nonce): seq<DefFileEntry>
    requires HasFilename(es, filename) ==> |key| == Crypto.KeyLength
  {
    if HasFilename(es, filename) then
      var (en, nn) := SealedName(newName, key, nameNonce);
      RenameFirst(es, filename, en, nn)
    else es
  }

  /** Once the index loads, `update_entry` is a single save of the updated entries. */
  lemma UpdateOpSaves(files: map<Path, Bytes>, dir: Path, filename: string, newName: string,
                      key: Bytes, nameNonce: Crypto.Nonce, defNonce: Crypto.Nonce)
    requires LoadDef(files, dir, key).Ok?
    ensures var es := LoadDef(files, dir, key).value.entries;
            && (HasFilename(es, filename) ==> |key| == Crypto.KeyLength)
            && UpdateOp(files, dir, filename, newName, key, nameNonce, defNonce)
               == SaveDefOp(files, dir, DefFile(UpdatedEntries(es, filename, newName, key, nameNonce)), key, defNonce)
  {
    if HasFilename(LoadDef(files, dir, key).value.entries, filename) {
      LoadDefEntriesKey(files, dir, key);
    }
  }

  /**
   * After `update_entry` the index is the old one with the first entry naming the file
   * re-sealed to the new name; with no such entry it is saved unchanged, and the call
   * still succeeds.
   */
  lemma UpdateRenames(files: map<Path, Bytes>, dir: Path, filename: string, newName: string,
                      key: Bytes, nameNonce: Crypto.Nonce, defNonce: Crypto.Nonce)
    requires |key| == Crypto.KeyLength && LoadDef(files, dir, key).Ok?
    ensures var r := UpdateOp(files, dir, filename, newName, key, nameNonce, defNonce);
            var es := LoadDef(files, dir, key).value.entries;
            var (en, nn) := SealedName(newName, key, nameNonce);
            && r.result == Ok(())
            && LoadDef(r.files, dir, key) == Ok(DefFile(RenameFirst(es, filename, en, nn)))
  {
    var d := LoadDef(files, dir, key).value;
    var (en, nn) := SealedName(newName, key, nameNonce);
    RenameFirstAt(d.entries, filename, en, nn);
    if HasFilename(d.entries, filename) {
      LoadDefAfterSave(files, dir, DefFile(RenameFirst(d.entries, filename, en, nn)), key, defNonce);
    } else {
      LoadDefAfterSave(files, dir, d, key, defNonce);
    }
  }

  /** Renaming keeps the file names of the index unique. */
  lemma UpdateKeepsUnique(files: map<Path, Bytes>, dir: Path, filename: string, newName: string,
                          key: Bytes, nameNonce: Crypto.Nonce, defNonce: Crypto.Nonce)
    requires |key| == Crypto.KeyLength && LoadDef(files, dir, key).Ok?
    requires UniqueFilenames(LoadDef(files, dir, key).value.entries)
    ensures var files' := UpdateOp(files, dir, filename, newName, key, nameNonce, defNonce).files;
            LoadDef(files', dir, key).Ok? && UniqueFilenames(LoadDef(files', dir, key).value.entries)
  {
    var es := LoadDef(files, dir, key).value.entries;
    UpdateRenames(files, dir, filename, newName, key, nameNonce, defNonce);
    var (en, nn) := SealedName(newName, key, nameNonce);
    RenameFirstFilenames(es, filename, en, nn);
    var es' := RenameFirst(es, filename, en, nn);
    assert forall i :: 0 <= i < |es'| ==> es'[i].encryptedFilename == Filenames(es')[i];
    assert forall i :: 0 <= i < |es| ==> es[i].encryptedFilename == Filenames(es)[i];
  }

  /** `delete_entry`: load, drop every entry naming the file, save, then remove the file if present. */
  function DeleteOp(files: map<Path, Bytes>, dir: Path, filename: string, key: Bytes,
                    defNonce: Crypto.Nonce): (r: Effect<()>)
    ensures r.result.Err? ==> r.files == files
    ensures r.result.Ok? ==> Join(dir, filename) !in r.files
    ensures forall p :: p != DefPath(dir) && p != Join(dir, filename) ==>
              (p in r.files <==> p in files) && (p in r.files ==> r.files[p] == files[p])
  {
    match LoadDef(files, dir, key)
    case Err(e) => Effect(Err(e), files)
    case Ok(d) =>
      var s := SaveDefOp(files, dir, DefFile(RemoveAll(d.entries, filename)), key, defNonce);
      if s.result.Err? then Effect(Err(s.result.error), files)
      else
        var path := Join(dir, filename);
        Effect(Ok(()), if path in s.files then s.files - {path} else s.files)
  }

  /**
   * After `delete_entry` (of anything but the index's own name) the index keeps exactly
   * the other entries, in order, and the secret's file is gone.
   */
  lemma DeleteRemoves(files: map<Path, Bytes>, dir: Path, filename: string, key: Bytes,
                      defNonce: Crypto.Nonce)
    requires |key| == Crypto.KeyLength && LoadDef(files, dir, key).Ok? && filename != DefName
    ensures var r := DeleteOp(files, dir, filename, key, defNonce);
            && r.result == Ok(())
            && LoadDef(r.files, dir, key) == Ok(DefFile(RemoveAll(LoadDef(files, dir, key).value.entries, filename)))
  {
    var d := LoadDef(files, dir, key).value;
    var d' := DefFile(RemoveAll(d.entries, filename));
    LoadDefAfterSave(files, dir, d', key, defNonce);
    JoinDistinct(dir, filename, DefName);
    var s := SaveDefOp(files, dir, d', key, defNonce);
    var path := Join(dir, filename);
    var f := if path in s.files then s.files - {path} else s.files;
    assert DeleteOp(files, dir, filename, key, defNonce) == Effect(Ok(()), f);
    LoadDefSameIndex(f, s.files, dir, key);
  }

  /** A second delete of the same file also succeeds and leaves the index as the first left it. */
  lemma DeleteTwice(files: map<Path, Bytes>, dir: Path, filename: string, key: Bytes,
                    nonce1: Crypto.Nonce, nonce2: Crypto.Nonce)
    requires |key| == Crypto.KeyLength && LoadDef(files, dir, key).Ok? && filename != DefName
    ensures var r1 := DeleteOp(files, dir, filename, key, nonce1);
            var r2 := DeleteOp(r1.files, dir, filename, key, nonce2);
            r2.result == Ok(()) && LoadDef(r2.files, dir, key) == LoadDef(r1.files, dir, key)
  {
    var es := LoadDef(files, dir, key).value.entries;
    DeleteRemoves(files, dir, filename, key, nonce1);
    var r1 := DeleteOp(files, dir, filename, key, nonce1);
    DeleteRemoves(r1.files, dir, filename, key, nonce2);
    RemoveAllIdempotent(es, filename);
  }

  /** After a delete, no name is found at the deleted file. */
  lemma FindAfterDelete(files: map<Path, Bytes>, dir: Path, filename: string, name: string,
                        key: Bytes, defNonce: Crypto.Nonce)
    requires |key| == Crypto.KeyLength && LoadDef(files, dir, key).Ok? && filename != DefName
    ensures FindOp(DeleteOp(files, dir, filename, key, defNonce).files, dir, name, key) != Ok(Some(filename))
  {
    DeleteRemoves(files, dir, filename, key, defNonce);
  }

  /** Deleting keeps the file names of the index unique. */
  lemma DeleteKeepsUnique(files: map<Path, Bytes>, dir: Path, filename: string, key: Bytes,
                          defNonce: Crypto.Nonce)
    requires |key| == Crypto.KeyLength && LoadDef(files, dir, key).Ok? && filename != DefName
    requires UniqueFilenames(LoadDef(files, dir, key).value.entries)
    ensures var files' := DeleteOp(files, dir, filename, key, defNonce).files;
            LoadDef(files', dir, key).Ok? && UniqueFilenames(LoadDef(files', dir, key).value.entries)
  {
    DeleteRemoves(files, dir, filename, key, defNonce);
    RemoveAllKeepsUnique(LoadDef(files, dir, key).value.entries, filename);
  }
}
