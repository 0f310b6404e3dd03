/**
 * `PasswordStorage`: the vault directory as seen through a file system. Each method does
 * what the source does step by step (load, decrypt entry by entry, edit the entry list,
 * save) and is proved to leave the result and the files that the matching function of
 * `StorageOps` describes. Nonces and UUIDs are drawn by the caller and passed in.
 */
module Storage {
  import opened Prelude
  import opened Errors
  import opened Models
  import opened FileSystem
  import opened Index
  import opened StorageOps
  import Utf8
  import Base64
  import Json
  import Crypto

  class PasswordStorage {
    const passwordsDir: Path
    const fs: FileSystem

    /** `PasswordStorage::new`: the directory comes from the configuration. */
    constructor(passwordsDir: Path, fs: FileSystem)
      ensures this.passwordsDir == passwordsDir && this.fs == fs
    {
      this.passwordsDir := passwordsDir;
      this.fs := fs;
    }

    /** `load_def_file`. */
    method LoadDefFile(key: Bytes) returns (r: Result<DefFile>)
      ensures r == LoadDef(fs.files, passwordsDir, key)
    {
      var path := DefPath(passwordsDir);
      if !fs.Exists(path) {
        return Ok(DefFile([]));
      }
      var read := fs.Read(path);
      var content := read.value;
      if |content| < Crypto.NonceLength {
        return Err(Crypto(InvalidDefFormatMessage));
      }
      var nonce := content[..Crypto.NonceLength];
      var ciphertext := content[Crypto.NonceLength..];
      var plaintext := Crypto.DecryptData(ciphertext, nonce, key);
      if plaintext.Err? {
        return Err(plaintext.error);
      }
      match Utf8.Decode(plaintext.value)
      case None =>
        r := Err(Crypto(InvalidUtf8DefMessage));
      case Some(json) =>
        match Json.ParseDefFile(json)
        case None => r := Err(Serialization);
        case Some(d) => r := Ok(d);
    }

    /** `save_def_file`: the nonce, then the ciphertext, written over the index file. */
    method SaveDefFile(d: DefFile, key: Bytes, nonce: Crypto.Nonce) returns (r: Result<()>)
      modifies fs
      ensures Effect(r, fs.files) == SaveDefOp(old(fs.files), passwordsDir, d, key, nonce)
    {
      var json := Json.EncodeDefFile(d);
      var sealed := Crypto.EncryptData(Utf8.Encode(json), key, nonce);
      if sealed.Err? {
        return Err(sealed.error);
      }
      var (ciphertext, n) := sealed.value;
      var content := n;
      content := content + ciphertext;
      fs.Write(DefPath(passwordsDir), content);
      r := Ok(());
    }

    /** `encrypt_filename`. */
    method EncryptFilename(name: string, key: Bytes, nonce: Crypto.Nonce) returns (r: Result<(string, string)>)
      ensures r == EncryptName(name, key, nonce)
    {
      var sealed := Crypto.EncryptData(Utf8.Encode(name), key, nonce);
      if sealed.Err? {
        return Err(sealed.error);
      }
      var (ciphertext, n) := sealed.value;
      r := Ok((Base64.EncodePadded(ciphertext), Base64.EncodePadded(n)));
    }

    /** `decrypt_filename`. */
    method DecryptFilename(encryptedName: string, nonce: string, key: Bytes) returns (r: Result<string>)
      ensures r == DecryptName(encryptedName, nonce, key)
    {
      var ciphertext := Base64.DecodePadded(encryptedName);
      if ciphertext.None? {
        return Err(Crypto(InvalidBase64NameMessage));
      }
      var nonceBytes := Base64.DecodePadded(nonce);
      if nonceBytes.None? {
        return Err(Crypto(InvalidBase64NonceMessage));
      }
      var plaintext := Crypto.DecryptData(ciphertext.value, nonceBytes.value, key);
      if plaintext.Err? {
        return Err(plaintext.error);
      }
      match Utf8.Decode(plaintext.value)
      case None => r := Err(Crypto(InvalidUtf8NameMessage));
      case Some(s) => r := Ok(s);
    }

    /** `save_password_file`: a new `<uuid>.pwd` record; its file name is returned. */
    method SavePasswordFile(password: string, key: Bytes, nonce: Crypto.Nonce, id: Uuid)
      returns (r: Result<string>)
      modifies fs
      ensures Effect(r, fs.files) == SavePasswordOp(old(fs.files), passwordsDir, password, key, nonce, id)
    {
      var sealed := Crypto.EncryptPassword(password, key, nonce);
      if sealed.Err? {
        return Err(sealed.error);
      }
      var (ciphertext, n) := sealed.value;
      var record := PasswordFile(Base64.EncodePadded(ciphertext), Base64.EncodePadded(n));
      var filename := PasswordFileName(id);
      fs.Write(Join(passwordsDir, filename), Utf8.Encode(Json.EncodePasswordFile(record)));
      r := Ok(filename);
    }

    /** `load_password_file`. */
    method LoadPasswordFile(filename: string, key: Bytes) returns (r: Result<string>)
      ensures r == LoadPasswordOp(fs.files, passwordsDir, filename, key)
    {
      var json := fs.ReadToString(Join(passwordsDir, filename));
      if json.Err? {
        return Err(json.error);
      }
      var record := Json.ParsePasswordFile(json.value);
      if record.None? {
        return Err(Serialization);
      }
      var ciphertext := Base64.DecodePadded(record.value.encryptedPassword);
      if ciphertext.None? {
        return Err(Crypto(InvalidBase64PasswordMessage));
      }
      var nonce := Base64.DecodePadded(record.value.nonce);
      if nonce.None? {
        return Err(Crypto(InvalidBase64NonceMessage));
      }
      r := Crypto.DecryptPassword(ciphertext.value, nonce.value, key);
    }

    /** `update_password_file`: the record is written whether or not the file existed. */
    method UpdatePasswordFile(filename: string, password: string, key: Bytes, nonce: Crypto.Nonce)
      returns (r: Result<()>)
      modifies fs
      ensures Effect(r, fs.files) == UpdatePasswordOp(old(fs.files), passwordsDir, filename, password, key, nonce)
    {
      var sealed := Crypto.EncryptPassword(password, key, nonce);
      if sealed.Err? {
        return Err(sealed.error);
      }
      var (ciphertext, n) := sealed.value;
      var record := PasswordFile(Base64.EncodePadded(ciphertext), Base64.EncodePadded(n));
      fs.Write(Join(passwordsDir, filename), Utf8.Encode(Json.EncodePasswordFile(record)));
      r := Ok(());
    }

    /** `list_decrypted_names`: entries are decrypted in order; the first failure is returned. */
    method ListDecryptedNames(key: Bytes) returns (r: Result<seq<(string, string)>>)
      ensures r == ListOp(fs.files, passwordsDir, key)
    {
      var d := LoadDefFile(key);
      if d.Err? {
        return Err(d.error);
      }
      r := DecryptNames(d.value.entries, key);
    }

    /** The loop of `list_decrypted_names`: each entry's name in order, or the first failure. */
    method DecryptNames(es: seq<DefFileEntry>, key: Bytes) returns (r: Result<seq<(string, string)>>)
      ensures r == DecryptAll(es, key)
    {
      var names: seq<(string, string)> := [];
      var i := 0;
      while i < |es|
        invariant 0 <= i <= |es|
        invariant ListWith(es[..i], NameOf(key)) == Ok(names)
      {
        var name := DecryptFilename(es[i].encryptedName, es[i].nonce, key);
        assert es[..i + 1][..i] == es[..i];
        if name.Err? {
          ListWithPrefixErr(es, NameOf(key), i + 1);
          return Err(name.error);
        }
        names := names + [(es[i].encryptedFilename, name.value)];
        i := i + 1;
      }
      assert es[..i] == es;
      r := Ok(names);
    }

    /** `add_entry`: the index with one more entry, naming a fresh `<uuid>.pwd` file. */
    method AddEntry(name: string, key: Bytes, nameNonce: Crypto.Nonce, defNonce: Crypto.Nonce, id: Uuid)
      returns (r: Result<string>)
      modifies fs
      ensures Effect(r, fs.files) == AddOp(old(fs.files), passwordsDir, name, key, nameNonce, defNonce, id)
    {
      var d := LoadDefFile(key);
      if d.Err? {
        return Err(d.error);
      }
      var sealed := EncryptFilename(name, key, nameNonce);
      if sealed.Err? {
        return Err(sealed.error);
      }
      var (encryptedName, nonce) := sealed.value;
      var filename := PasswordFileName(id);
      var entries := d.value.entries;
      entries := entries + [DefFileEntry(filename, encryptedName, nonce)];
      // The name was sealed, so the key is 32 bytes and saving cannot fail.
      var saved := SaveDefFile(DefFile(entries), key, defNonce);
      r := Ok(filename);
    }

    /** `update_entry`: the first entry naming the file gets a newly sealed name, then the index is saved. */
    method UpdateEntry(filename: string, newName: string, key: Bytes, nameNonce: Crypto.Nonce,
                       defNonce: Crypto.Nonce) returns (r: Result<()>)
      modifies fs
      ensures Effect(r, fs.files) == UpdateOp(old(fs.files), passwordsDir, filename, newName, key, nameNonce, defNonce)
    {
      var d := LoadDefFile(key);
      if d.Err? {
        return Err(d.error);
      }
      UpdateOpSaves(fs.files, passwordsDir, filename, newName, key, nameNonce, defNonce);
      var entries := RenameFirstInPlace(d.value.entries, filename, newName, key, nameNonce);
      r := SaveDefFile(DefFile(entries), key, defNonce);
    }

    /**
     * The `&mut` loop of `update_entry`: the first entry naming the file gets a newly sealed
     * name and the loop stops there.
     */
    method RenameFirstInPlace(es: seq<DefFileEntry>, filename: string, newName: string, key: Bytes,
                              nameNonce: Crypto.Nonce) returns (entries: seq<DefFileEntry>)
      requires HasFilename(es, filename) ==> |key| == Crypto.KeyLength
      ensures entries == UpdatedEntries(es, filename, newName, key, nameNonce)
    {
      entries := es;
      var i := 0;
      while i < |entries|
        invariant 0 <= i <= |entries| && entries == es
        invariant forall j :: 0 <= j < i ==> entries[j].encryptedFilename != filename
      {
        if entries[i].encryptedFilename == filename {
          entries := RenameAt(entries, i, filename, newName, key, nameNonce);
          return;
        }
        i := i + 1;
      }
    }

    /** The body of the matching iteration of `update_entry`: the entry gets a newly sealed name. */
    method RenameAt(entries: seq<DefFileEntry>, i: nat, filename: string, newName: string, key: Bytes,
                    nameNonce: Crypto.Nonce) returns (renamed: seq<DefFileEntry>)
      requires |key| == Crypto.KeyLength && i < |entries| && entries[i].encryptedFilename == filename
      requires forall j :: 0 <= j < i ==> entries[j].encryptedFilename != filename
      ensures var (en, nn) := SealedName(newName, key, nameNonce);
              renamed == RenameFirst(entries, filename, en, nn)
    {
      var sealed := EncryptFilename(newName, key, nameNonce);
      var (encryptedName, nonce) := sealed.value;
      RenameFirstAt(entries, filename, encryptedName, nonce);
      assert FirstIndexOf(entries, filename) == Some(i) by {
        var k := FirstIndexOf(entries, filename).value;
        assert !(k < i) && !(i < k);
      }
      renamed := entries[i := Renamed(entries[i], encryptedName, nonce)];
    }

    /** `delete_entry`: every entry naming the file is dropped, then the file itself if present. */
    method DeleteEntry(filename: string, key: Bytes, defNonce: Crypto.Nonce) returns (r: Result<()>)
      modifies fs
      ensures Effect(r, fs.files) == DeleteOp(old(fs.files), passwordsDir, filename, key, defNonce)
    {
      var d := LoadDefFile(key);
      if d.Err? {
        return Err(d.error);
      }
      var kept := RetainOthers(d.value.entries, filename);
      var saved := SaveDefFile(DefFile(kept), key, defNonce);
      if saved.Err? {
        return Err(saved.error);
      }
      var path := Join(passwordsDir, filename);
      if fs.Exists(path) {
        // The file exists, so removing it succeeds.
        var removed := fs.Remove(path);
      }
      r := Ok(());
    }

    /** `retain`: the entries not naming the file, in order. */
    method RetainOthers(es: seq<DefFileEntry>, filename: string) returns (kept: seq<DefFileEntry>)
      ensures kept == RemoveAll(es, filename)
    {
      kept := [];
      var i := 0;
      while i < |es|
        invariant 0 <= i <= |es|
        invariant kept == RemoveAll(es[..i], filename)
      {
        assert es[..i + 1] == es[..i] + [es[i]];
        RemoveAllAppend(es[..i], [es[i]], filename);
        if es[i].encryptedFilename != filename {
          kept := kept + [es[i]];
        }
        i := i + 1;
      }
      assert es[..i] == es;
    }

    /** `find_filename_by_name`: the first entry whose name decrypts to `name`. */
    method FindFilenameByName(name: string, key: Bytes) returns (r: Result<Option<string>>)
      ensures r == FindOp(fs.files, passwordsDir, name, key)
    {
      var d := LoadDefFile(key);
      if d.Err? {
        return Err(d.error);
      }
      var es := d.value.entries;
      var i := 0;
      while i < |es|
        invariant 0 <= i <= |es|
        invariant FindByName(es, name, key) == FindByName(es[i..], name, key)
      {
        var decrypted := DecryptFilename(es[i].encryptedName, es[i].nonce, key);
        assert es[i..][0] == es[i] && es[i..][1..] == es[i + 1..];
        if decrypted.Err? {
          return Err(decrypted.error);
        }
        if decrypted.value == name {
          return Ok(Some(es[i].encryptedFilename));
        }
        i := i + 1;
      }
      r := Ok(None);
    }
  }
}
