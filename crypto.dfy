/**
 * The cipher manager: AES-256-GCM sealing of secrets, Argon2id password hashes in PHC
 * string form, random tokens, and the key holder that wipes itself when dropped.
 *
 * The cipher is symbolic. A seal under (key, nonce) is the plaintext, followed by a
 * "tag" made of the key, the nonce and the plaintext again; opening succeeds exactly on
 * genuine seals under the same key and nonce. This keeps what the program relies on
 * (round trip, authentication: wrong key, wrong nonce or any altered byte is rejected)
 * and nothing about secrecy. The password hash is symbolic in the same way: the digest
 * of a password is the hash's setting (algorithm, version and parameters as written),
 * then the salt, then the password's UTF-8 bytes.
 */
module Crypto {
  import opened Prelude
  import opened Errors
  import Utf8
  import Base64
  import Hex

  const KeyLength: nat := 32
  const NonceLength: nat := 12
  const TagLength: nat := KeyLength + NonceLength

  const KeyLengthMessage: string := "Key must be 32 bytes for AES-256"
  const DecryptionFailedMessage: string := "Decryption failed: aead::Error"
  const InvalidUtf8Message: string := "Invalid UTF-8 in decrypted data"
  const InvalidNonceMessage: string := "Nonce must be 12 bytes"
  const InvalidHashMessage: string := "Invalid hash format"

  /** A 96-bit GCM nonce, as `Aes256Gcm::generate_nonce` draws it. */
  type Nonce = b: Bytes | |b| == NonceLength witness [0, 0, 0, 0, 0, 0, 0, 0, 0, 0, 0, 0]

  /** The 16 random bytes `SaltString::generate` draws. */
  type HashSalt = b: Bytes | |b| == 16 witness seq(16, _ => 0)

  /** The 32 random bytes `generate_token` draws. */
  type TokenSeed = b: Bytes | |b| == 32 witness seq(32, _ => 0)

  // ---------------------------------------------------------------------------
  // The symbolic AEAD
  // ---------------------------------------------------------------------------

  function Seal(key: Bytes, nonce: Bytes, plaintext: Bytes): (c: Bytes)
    requires |key| == KeyLength && |nonce| == NonceLength
    ensures |c| == 2 * |plaintext| + TagLength
  {
    plaintext + key + nonce + plaintext
  }

  /** Authenticated decryption: None is the authentication failure. */
  function Open(key: Bytes, nonce: Bytes, c: Bytes): (r: Option<Bytes>)
    requires |key| == KeyLength && |nonce| == NonceLength
  {
    if |c| < TagLength || (|c| - TagLength) % 2 != 0 then None
    else
      var m := (|c| - TagLength) / 2;
      if c[..m] == c[m + TagLength..] && c[m..m + KeyLength] == key
         && c[m + KeyLength..m + TagLength] == nonce
      then Some(c[..m])
      else None
  }

  lemma OpenSeal(key: Bytes, nonce: Bytes, p: Bytes)
    requires |key| == KeyLength && |nonce| == NonceLength
    ensures Open(key, nonce, Seal(key, nonce, p)) == Some(p)
  {
    var c := Seal(key, nonce, p);
    var m := |p|;
    assert c[..m] == p;
    assert c[m..m + KeyLength] == key;
    assert c[m + KeyLength..m + TagLength] == nonce;
    assert c[m + TagLength..] == p;
  }

  /** Only a genuine seal under the same key and nonce opens. */
  lemma OpenOnlySeals(key: Bytes, nonce: Bytes, c: Bytes)
    requires |key| == KeyLength && |nonce| == NonceLength
    requires Open(key, nonce, c).Some?
    ensures c == Seal(key, nonce, Open(key, nonce, c).value)
  {
    var m := (|c| - TagLength) / 2;
    var p := c[..m];
    assert c == c[..m] + c[m..m + KeyLength] + c[m + KeyLength..m + TagLength] + c[m + TagLength..];
  }

  /** A seal does not open under any other key or nonce. */
  lemma OpenOtherKeyOrNonce(key: Bytes, nonce: Bytes, key2: Bytes, nonce2: Bytes, p: Bytes)
    requires |key| == KeyLength && |nonce| == NonceLength
    requires |key2| == KeyLength && |nonce2| == NonceLength
    requires key2 != key || nonce2 != nonce
    ensures Open(key2, nonce2, Seal(key, nonce, p)) == None
  {
    var c := Seal(key, nonce, p);
    var m := |p|;
    assert c[m..m + KeyLength] == key;
    assert c[m + KeyLength..m + TagLength] == nonce;
  }

  /** Two seals of equally long plaintexts that agree everywhere but at `i` agree at `i` too. */
  lemma SealsAgreeAt(key: Bytes, nonce: Bytes, p: Bytes, q: Bytes, i: nat)
    requires |key| == KeyLength && |nonce| == NonceLength && |p| == |q|
    requires i < |Seal(key, nonce, p)|
    requires forall j :: 0 <= j < |Seal(key, nonce, p)| && j != i ==>
               Seal(key, nonce, p)[j] == Seal(key, nonce, q)[j]
    ensures Seal(key, nonce, p)[i] == Seal(key, nonce, q)[i]
  {
    var a, b := Seal(key, nonce, p), Seal(key, nonce, q);
    var m := |p|;
    if i < m {
      assert a[m + TagLength + i] == b[m + TagLength + i];
      assert a[i] == p[i] == a[m + TagLength + i];
      assert b[i] == q[i] == b[m + TagLength + i];
    } else if i >= m + TagLength {
      var k := i - m - TagLength;
      assert a[k] == b[k];
      assert a[i] == p[k] == a[k];
      assert b[i] == q[k] == b[k];
    }
  }

  /** Changing any single byte of a seal makes it fail to open. */
  lemma OpenTampered(key: Bytes, nonce: Bytes, p: Bytes, i: nat, v: byte)
    requires |key| == KeyLength && |nonce| == NonceLength
    requires i < |Seal(key, nonce, p)| && v != Seal(key, nonce, p)[i]
    ensures Open(key, nonce, Seal(key, nonce, p)[i := v]) == None
  {
    var c := Seal(key, nonce, p);
    var c' := c[i := v];
    if Open(key, nonce, c').Some? {
      OpenOnlySeals(key, nonce, c');
      SealsAgreeAt(key, nonce, p, Open(key, nonce, c').value, i);
      assert false;
    }
  }

  // ---------------------------------------------------------------------------
  // Encryption and decryption (`encrypt_password`, `decrypt_password` and their
  // byte-level twins `encrypt_data`, `decrypt_data` that storage uses)
  // ---------------------------------------------------------------------------

  /**
   * `encrypt_data(data, key)` with the nonce drawn by the caller: (ciphertext, nonce).
   * The key length is checked before the cipher is built.
   */
  function EncryptData(data: Bytes, key: Bytes, nonce: Nonce): (r: Result<(Bytes, Bytes)>)
    ensures r.Err? <==> |key| != KeyLength
    ensures r.Err? ==> r.error == Crypto(KeyLengthMessage)
    ensures r.Ok? ==> r.value.1 == nonce && Open(key, nonce, r.value.0) == Some(data)
  {
    if |key| != KeyLength then Err(Crypto(KeyLengthMessage))
    else
      OpenSeal(key, nonce, data);
      Ok((Seal(key, nonce, data), nonce))
  }

  /** How a call that may panic ends. */
  datatype Outcome<+T> = Returned(result: Result<T>) | Panicked

  /**
   * `decrypt_data` as written: after the key check, `Nonce::from_slice` panics on a
   * nonce that is not 12 bytes long.
   */
  function DecryptDataAsWritten(c: Bytes, nonce: Bytes, key: Bytes): (r: Outcome<Bytes>)
    ensures r.Panicked? <==> |key| == KeyLength && |nonce| != NonceLength
  {
    if |key| != KeyLength then Returned(Err(Crypto(KeyLengthMessage)))
    else if |nonce| != NonceLength then Panicked
    else
      match Open(key, nonce, c)
      case None => Returned(Err(Crypto(DecryptionFailedMessage)))
      case Some(p) => Returned(Ok(p))
  }

  /**
   * `decrypt_data` with the nonce length checked: a nonce of the wrong length is a
   * `Crypto` error instead of a panic. Plaintext comes back only from a genuine seal.
   */
  function DecryptData(c: Bytes, nonce: Bytes, key: Bytes): (r: Result<Bytes>)
    ensures |key| != KeyLength ==> r == Err(Crypto(KeyLengthMessage))
    ensures r.Err? ==> r.error.Crypto?
    ensures r.Ok? <==> |key| == KeyLength && |nonce| == NonceLength && Open(key, nonce, c).Some?
    ensures r.Ok? ==> c == Seal(key, nonce, r.value)
  {
    if |key| != KeyLength then Err(Crypto(KeyLengthMessage))
    else if |nonce| != NonceLength then Err(Crypto(InvalidNonceMessage))
    else
      match Open(key, nonce, c)
      case None => Err(Crypto(DecryptionFailedMessage))
      case Some(p) =>
        OpenOnlySeals(key, nonce, c);
        Ok(p)
  }

  /** Where the code as written does not panic, the checked version returns the same. */
  lemma DecryptDataAgrees(c: Bytes, nonce: Bytes, key: Bytes)
    requires DecryptDataAsWritten(c, nonce, key).Returned?
    ensures DecryptDataAsWritten(c, nonce, key).result == DecryptData(c, nonce, key)
  {
  }

  /**
   * The panic is reachable from data read off disk: the base64 text "AAAA" (which a
   * tampered `nonce` field may hold) decodes to three bytes.
   */
  lemma ShortNoncePanics(c: Bytes, key: Bytes)
    requires |key| == KeyLength
    ensures Base64.DecodePadded("AAAA") == Some([0, 0, 0])
    ensures DecryptDataAsWritten(c, [0, 0, 0], key) == Panicked
  {
    assert Base64.EncodePadded([0, 0, 0]) == "AAAA" by {
      assert Base64.EncodeNoPad([0, 0, 0]) == Base64.EncodeGroup(0, 0, 0) + Base64.EncodeNoPad([]);
    }
    Base64.DecodeEncodePadded([0, 0, 0]);
  }

  /** Decrypting what was encrypted with a 32-byte key gives the data back. */
  lemma DecryptEncryptData(data: Bytes, key: Bytes, nonce: Nonce)
    requires |key| == KeyLength
    ensures EncryptData(data, key, nonce).Ok?
    ensures var (c, n) := EncryptData(data, key, nonce).value; DecryptData(c, n, key) == Ok(data)
  {
  }

  /** `encrypt_password`: the password's UTF-8 bytes, sealed. */
  function EncryptPassword(password: string, key: Bytes, nonce: Nonce): (r: Result<(Bytes, Bytes)>)
    ensures r.Err? <==> |key| != KeyLength
    ensures r.Err? ==> r.error == Crypto(KeyLengthMessage)
  {
    EncryptData(Utf8.Encode(password), key, nonce)
  }

  /** `decrypt_password` with the nonce length checked; the plaintext must be UTF-8. */
  function DecryptPassword(c: Bytes, nonce: Bytes, key: Bytes): (r: Result<string>)
    ensures |key| != KeyLength ==> r == Err(Crypto(KeyLengthMessage))
    ensures r.Err? ==> r.error.Crypto?
    ensures r.Ok? ==> |key| == KeyLength && |nonce| == NonceLength
                      && c == Seal(key, nonce, Utf8.Encode(r.value))
  {
    var p :- DecryptData(c, nonce, key);
    match Utf8.Decode(p)
    case None => Err(Crypto(InvalidUtf8Message))
    case Some(s) =>
      Utf8.EncodeDecode(p);
      Ok(s)
  }

  /** `decrypt_password` as written, panicking on a nonce that is not 12 bytes. */
  function DecryptPasswordAsWritten(c: Bytes, nonce: Bytes, key: Bytes): (r: Outcome<string>)
    ensures r.Panicked? <==> |key| == KeyLength && |nonce| != NonceLength
    ensures r.Returned? ==> r.result == DecryptPassword(c, nonce, key)
  {
    match DecryptDataAsWritten(c, nonce, key)
    case Panicked => Panicked
    case Returned(Err(e)) => Returned(Err(e))
    case Returned(Ok(p)) =>
      match Utf8.Decode(p)
      case None => Returned(Err(Crypto(InvalidUtf8Message)))
      case Some(s) => Returned(Ok(s))
  }

  /** Decrypting what `encrypt_password` produced with a 32-byte key gives the password. */
  lemma DecryptEncryptPassword(password: string, key: Bytes, nonce: Nonce)
    requires |key| == KeyLength
    ensures EncryptPassword(password, key, nonce).Ok?
    ensures var (c, n) := EncryptPassword(password, key, nonce).value;
            DecryptPassword(c, n, key) == Ok(password)
  {
    Utf8.DecodeEncode(password);
  }

  /** A seal of bytes that are not UTF-8 decrypts to a `Crypto` error, not to text. */
  lemma DecryptPasswordInvalidUtf8(p: Bytes, key: Bytes, nonce: Nonce)
    requires |key| == KeyLength && Utf8.Decode(p).None?
    ensures DecryptPassword(Seal(key, nonce, p), nonce, key) == Err(Crypto(InvalidUtf8Message))
  {
    OpenSeal(key, nonce, p);
  }

  /** The ciphertext of a password does not decrypt under another key or nonce. */
  lemma DecryptPasswordWrongKeyOrNonce(password: string, key: Bytes, nonce: Nonce,
                                       key2: Bytes, nonce2: Bytes)
    requires |key| == KeyLength
    requires key2 != key || nonce2 != nonce
    ensures DecryptPassword(Seal(key, nonce, Utf8.Encode(password)), nonce2, key2).Err?
  {
    if |key2| == KeyLength && |nonce2| == NonceLength {
      OpenOtherKeyOrNonce(key, nonce, key2, nonce2, Utf8.Encode(password));
    }
  }

  /** An altered ciphertext is an authentication failure. */
  lemma DecryptPasswordTampered(password: string, key: Bytes, nonce: Nonce, i: nat, v: byte)
    requires |key| == KeyLength
    requires i < |Seal(key, nonce, Utf8.Encode(password))|
    requires v != Seal(key, nonce, Utf8.Encode(password))[i]
    ensures DecryptPassword(Seal(key, nonce, Utf8.Encode(password))[i := v], nonce, key)
            == Err(Crypto(DecryptionFailedMessage))
  {
    OpenTampered(key, nonce, Utf8.Encode(password), i, v);
  }

  // ---------------------------------------------------------------------------
  // Password hashes
  // ---------------------------------------------------------------------------

  /**
   * A hash string in PHC form, `$<id>[$v=<version>][$<params>][$<salt>[$<hash>]]`, split
   * the way `PasswordHash::new` splits it: the algorithm identifier, the version digits,
   * the parameter field as written, the salt as written and the decoded hash output.
   */
  datatype Phc = Phc(algorithm: string, version: Option<string>, params: Option<string>,
                     salt: Option<string>, hash: Option<Bytes>)

  /** What `Argon2::default()` writes: Argon2id, version 19, its default costs. */
  const DefaultAlgorithm: string := "argon2id"
  const DefaultVersion: string := "19"
  const DefaultParams: string := "m=19456,t=2,p=1"

  /** The identifiers Argon2 can compute a hash for. */
  const Argon2Algorithms: set<string> := {"argon2d", "argon2i", "argon2id"}

  predicate IsDecimal(s: string)
  {
    |s| > 0 && forall i :: 0 <= i < |s| ==> '0' <= s[i] <= '9'
  }

  /** A PHC identifier: 1 to 32 characters among `a-z`, `0-9` and `-`. */
  predicate IsIdent(s: string)
  {
    0 < |s| <= 32 && forall i :: 0 <= i < |s| ==> 'a' <= s[i] <= 'z' || '0' <= s[i] <= '9' || s[i] == '-'
  }

  /** A field read as a version: it starts with `v=` and holds no `,`. */
  predicate IsVersionField(f: string)
  {
    |f| >= 2 && f[..2] == "v=" && ',' !in f
  }

  /** A salt field: a non-empty run of base64 digits. */
  predicate IsSaltField(f: string)
  {
    |f| > 0 && Base64.AllDigits(f)
  }

  /** Splits at the first '$'. */
  function SplitDollar(s: string): (r: Option<(string, string)>)
    ensures r.Some? ==> s == r.value.0 + "$" + r.value.1
    ensures r.None? <==> '$' !in s
    ensures r.Some? ==> '$' !in r.value.0
  {
    if s == [] then None
    else if s[0] == '$' then Some(([], s[1..]))
    else
      var (a, b) :- SplitDollar(s[1..]);
      Some(([s[0]] + a, b))
  }

  /** The `$`-separated fields of a string, in order. */
  function Fields(s: string): (r: seq<string>)
    ensures |r| >= 1
    decreases |s|
  {
    match SplitDollar(s)
    case None => [s]
    case Some((a, b)) => [a] + Fields(b)
  }

  /** The fields written back with `$` between them. */
  function JoinFields(fs: seq<string>): string
    requires |fs| >= 1
  {
    if |fs| == 1 then fs[0] else fs[0] + "$" + JoinFields(fs[1..])
  }

  lemma {:induction false} SplitDollarOf(a: string, b: string)
    requires '$' !in a
    ensures SplitDollar(a + "$" + b) == Some((a, b))
  {
    if a != [] {
      assert (a + "$" + b)[1..] == a[1..] + "$" + b;
      SplitDollarOf(a[1..], b);
      assert [a[0]] + a[1..] == a;
    }
  }

  /** Joining fields free of `$` and splitting again gives the same fields. */
  lemma {:induction false} FieldsOfJoin(fs: seq<string>)
    requires |fs| >= 1 && forall i :: 0 <= i < |fs| ==> '$' !in fs[i]
    ensures Fields(JoinFields(fs)) == fs
  {
    if |fs| > 1 {
      FieldsOfJoin(fs[1..]);
      SplitDollarOf(fs[0], JoinFields(fs[1..]));
      assert [fs[0]] + fs[1..] == fs;
    }
  }

  /** Splitting into fields and joining them again gives the string back. */
  lemma {:induction false} JoinOfFields(s: string)
    ensures JoinFields(Fields(s)) == s
    decreases |s|
  {
    match SplitDollar(s)
    case None =>
    case Some((a, b)) =>
      JoinOfFields(b);
      assert Fields(s)[1..] == Fields(b);
  }

  /** No field holds a `$`. */
  lemma {:induction false} FieldsNoDollar(s: string)
    ensures forall i :: 0 <= i < |Fields(s)| ==> '$' !in Fields(s)[i]
    decreases |s|
  {
    match SplitDollar(s)
    case None =>
    case Some((a, b)) =>
      FieldsNoDollar(b);
      assert Fields(s) == [a] + Fields(b);
  }

  /** After the identifier: a version field, if the next field reads as one. */
  function ParseVersion(id: string, fs: seq<string>): Option<Phc>
  {
    if |fs| > 0 && IsVersionField(fs[0]) then
      if IsDecimal(fs[0][2..]) then ParseParams(id, Some(fs[0][2..]), fs[1..]) else None
    else ParseParams(id, None, fs)
  }

  /** Then a parameter field, if the next field holds a `=`. */
  function ParseParams(id: string, version: Option<string>, fs: seq<string>): Option<Phc>
  {
    if |fs| > 0 && '=' in fs[0] then ParseSalt(id, version, Some(fs[0]), fs[1..])
    else ParseSalt(id, version, None, fs)
  }

  /** Then an optional salt, an optional base64 hash output after it, and nothing more. */
  function ParseSalt(id: string, version: Option<string>, params: Option<string>, fs: seq<string>): Option<Phc>
  {
    if |fs| == 0 then Some(Phc(id, version, params, None, None))
    else if !IsSaltField(fs[0]) then None
    else if |fs| == 1 then Some(Phc(id, version, params, Some(fs[0]), None))
    else if |fs| == 2 then
      match Base64.DecodeNoPad(fs[1])
      case None => None
      case Some(d) => Some(Phc(id, version, params, Some(fs[0]), Some(d)))
    else None
  }

  /** `PasswordHash::new`: the parts of a well-formed PHC string, None for a malformed one. */
  function ParsePhc(h: string): Option<Phc>
  {
    if |h| == 0 || h[0] != '$' then None
    else
      var fs := Fields(h[1..]);
      if IsIdent(fs[0]) then ParseVersion(fs[0], fs[1..]) else None
  }

  function VersionFields(p: Phc): seq<string>
  {
    if p.version.Some? then ["v=" + p.version.value] else []
  }

  function ParamsFields(p: Phc): seq<string>
  {
    if p.params.Some? then [p.params.value] else []
  }

  function SaltFields(p: Phc): seq<string>
  {
    if p.salt.None? then []
    else if p.hash.None? then [p.salt.value]
    else [p.salt.value, Base64.EncodeNoPad(p.hash.value)]
  }

  /** `PasswordHash::to_string`: the PHC string of the parts. */
  function Render(p: Phc): string
  {
    "$" + JoinFields([p.algorithm] + VersionFields(p) + ParamsFields(p) + SaltFields(p))
  }

  /** The parts that `Render` writes so that they parse back. */
  predicate WellFormed(p: Phc)
  {
    && IsIdent(p.algorithm)
    && (p.version.Some? ==> IsDecimal(p.version.value))
    && (p.params.Some? ==> '=' in p.params.value && '$' !in p.params.value)
    && (p.params.Some? && p.version.None? ==> !IsVersionField(p.params.value))
    && (p.salt.Some? ==> IsSaltField(p.salt.value))
    && (p.hash.Some? ==> p.salt.Some?)
  }

  lemma DigitsNoDollar(s: string)
    requires Base64.AllDigits(s)
    ensures forall i :: 0 <= i < |s| ==> s[i] != '$' && s[i] != '=' && s[i] != ','
    ensures '$' !in s && !IsVersionField(s)
  {
    if |s| >= 2 {
      assert s[..2][1] == s[1];
    }
  }

  lemma ParseSaltOf(p: Phc)
    requires WellFormed(p)
    ensures ParseSalt(p.algorithm, p.version, p.params, SaltFields(p)) == Some(p)
  {
    if p.hash.Some? {
      Base64.DecodeEncodeNoPad(p.hash.value);
    }
  }

  lemma ParseParamsOf(p: Phc)
    requires WellFormed(p)
    ensures ParseParams(p.algorithm, p.version, ParamsFields(p) + SaltFields(p)) == Some(p)
  {
    ParseSaltOf(p);
    if p.params.Some? {
      assert (ParamsFields(p) + SaltFields(p))[1..] == SaltFields(p);
    } else if p.salt.Some? {
      DigitsNoDollar(p.salt.value);
    }
  }

  lemma ParseVersionOf(p: Phc)
    requires WellFormed(p)
    ensures ParseVersion(p.algorithm, VersionFields(p) + ParamsFields(p) + SaltFields(p)) == Some(p)
  {
    ParseParamsOf(p);
    var rest := ParamsFields(p) + SaltFields(p);
    if p.version.Some? {
      var f := "v=" + p.version.value;
      assert f[..2] == "v=" && f[2..] == p.version.value;
      forall i | 2 <= i < |f| ensures f[i] != ',' {
        assert f[i] == p.version.value[i - 2];
      }
      assert (VersionFields(p) + rest)[1..] == rest;
    } else if p.params.None? && p.salt.Some? {
      DigitsNoDollar(p.salt.value);
      assert rest[0] == p.salt.value;
    }
  }

  lemma RenderFieldsNoDollar(p: Phc)
    requires WellFormed(p)
    ensures var fs := [p.algorithm] + VersionFields(p) + ParamsFields(p) + SaltFields(p);
            forall i :: 0 <= i < |fs| ==> '$' !in fs[i]
  {
    var fs := [p.algorithm] + VersionFields(p) + ParamsFields(p) + SaltFields(p);
    forall i | 0 <= i < |fs| ensures '$' !in fs[i] {
      if '$' in fs[i] {
        var j :| 0 <= j < |fs[i]| && fs[i][j] == '$';
        if p.salt.Some? {
          DigitsNoDollar(p.salt.value);
          if p.hash.Some? {
            Base64.EncodeNoPadShape(p.hash.value);
            DigitsNoDollar(Base64.EncodeNoPad(p.hash.value));
          }
        }
      }
    }
  }

  /** The string `Render` writes parses back to its parts. */
  lemma ParseRender(p: Phc)
    requires WellFormed(p)
    ensures ParsePhc(Render(p)) == Some(p)
  {
    var rest := VersionFields(p) + ParamsFields(p) + SaltFields(p);
    var fs := [p.algorithm] + VersionFields(p) + ParamsFields(p) + SaltFields(p);
    assert fs == [p.algorithm] + rest;
    RenderFieldsNoDollar(p);
    FieldsOfJoin(fs);
    assert Render(p)[1..] == JoinFields(fs);
    ParseVersionOf(p);
  }

  lemma RenderOfParseSalt(id: string, version: Option<string>, params: Option<string>, fs: seq<string>)
    requires ParseSalt(id, version, params, fs).Some?
    ensures var p := ParseSalt(id, version, params, fs).value;
            p.algorithm == id && p.version == version && p.params == params && SaltFields(p) == fs
            && (p.salt.Some? ==> IsSaltField(p.salt.value)) && (p.hash.Some? ==> p.salt.Some?)
  {
    if |fs| == 2 {
      Base64.EncodeDecodeNoPad(fs[1]);
    }
  }

  lemma RenderOfParseParams(id: string, version: Option<string>, fs: seq<string>)
    requires ParseParams(id, version, fs).Some?
    ensures var p := ParseParams(id, version, fs).value;
            p.algorithm == id && p.version == version && ParamsFields(p) + SaltFields(p) == fs
            && (p.params.Some? ==> '=' in p.params.value)
            && (p.salt.Some? ==> IsSaltField(p.salt.value)) && (p.hash.Some? ==> p.salt.Some?)
  {
    if |fs| > 0 && '=' in fs[0] {
      RenderOfParseSalt(id, version, Some(fs[0]), fs[1..]);
      assert [fs[0]] + fs[1..] == fs;
    } else {
      RenderOfParseSalt(id, version, None, fs);
    }
  }

  lemma RenderOfParseVersion(id: string, fs: seq<string>)
    requires ParseVersion(id, fs).Some?
    ensures var p := ParseVersion(id, fs).value;
            p.algorithm == id && VersionFields(p) + ParamsFields(p) + SaltFields(p) == fs
  {
    if |fs| > 0 && IsVersionField(fs[0]) {
      RenderOfParseParams(id, Some(fs[0][2..]), fs[1..]);
      assert "v=" + fs[0][2..] == fs[0];
      assert [fs[0]] + fs[1..] == fs;
    } else {
      RenderOfParseParams(id, None, fs);
    }
  }

  /** Only canonical strings parse: a parsed string is exactly the rendering of its parts. */
  lemma RenderParse(h: string)
    requires ParsePhc(h).Some?
    ensures Render(ParsePhc(h).value) == h
  {
    var fs := Fields(h[1..]);
    var p := ParsePhc(h).value;
    assert p == ParseVersion(fs[0], fs[1..]).value;
    RenderOfParseVersion(fs[0], fs[1..]);
    var rest := VersionFields(p) + ParamsFields(p) + SaltFields(p);
    assert [p.algorithm] + VersionFields(p) + ParamsFields(p) + SaltFields(p) == [fs[0]] + rest;
    assert [fs[0]] + fs[1..] == fs;
    JoinOfFields(h[1..]);
    assert h == "$" + h[1..];
  }

  /** What parses is well formed, so parsing and rendering are inverse bijections. */
  lemma ParseWellFormed(h: string)
    requires ParsePhc(h).Some?
    ensures WellFormed(ParsePhc(h).value)
  {
    var fs := Fields(h[1..]);
    var id, rest := fs[0], fs[1..];
    var p := ParsePhc(h).value;
    FieldsNoDollar(h[1..]);
    if |rest| > 0 && IsVersionField(rest[0]) {
      RenderOfParseParams(id, Some(rest[0][2..]), rest[1..]);
      if p.params.Some? {
        assert p.params.value == rest[1..][0] == fs[2];
      }
    } else {
      RenderOfParseParams(id, None, rest);
      if p.params.Some? {
        assert p.params.value == rest[0] == fs[1];
      }
    }
  }

  /** The hash's setting as written: algorithm, version and parameters. */
  function Setting(algorithm: string, version: Option<string>, params: Option<string>): string
  {
    Render(Phc(algorithm, version, params, None, None))
  }

  /**
   * The symbolic Argon2 digest: the setting, then the salt, then the password's UTF-8
   * bytes. For a fixed setting and salt it is injective in the password.
   */
  function Digest(algorithm: string, version: Option<string>, params: Option<string>, salt: Bytes,
                  password: string): Bytes
  {
    Utf8.Encode(Setting(algorithm, version, params)) + salt + Utf8.Encode(password)
  }

  /**
   * Whether Argon2, rerun with the hash's own algorithm, version, parameters and decoded
   * salt, reproduces the hash output.
   */
  predicate Reproduces(password: string, p: Phc)
  {
    && p.algorithm in Argon2Algorithms
    && p.salt.Some? && p.hash.Some?
    && Base64.DecodeNoPad(p.salt.value).Some?
    && p.hash.value == Digest(p.algorithm, p.version, p.params, Base64.DecodeNoPad(p.salt.value).value, password)
  }

  /** The parts `Argon2::default()` writes for a password under a drawn salt. */
  function DefaultHash(password: string, salt: HashSalt): Phc
  {
    Phc(DefaultAlgorithm, Some(DefaultVersion), Some(DefaultParams), Some(Base64.EncodeNoPad(salt)),
        Some(Digest(DefaultAlgorithm, Some(DefaultVersion), Some(DefaultParams), salt, password)))
  }

  /** Adding an encoded salt and an output to a well-formed setting keeps it well formed. */
  lemma WithOutput(p: Phc, salt: Bytes, d: Bytes)
    requires WellFormed(p) && p.salt.None? && |salt| > 0
    ensures WellFormed(p.(salt := Some(Base64.EncodeNoPad(salt)), hash := Some(d)))
  {
    Base64.EncodeNoPadShape(salt);
  }

  /** The setting `Argon2::default()` writes is well formed. */
  lemma DefaultSettingWellFormed()
    ensures WellFormed(Phc(DefaultAlgorithm, Some(DefaultVersion), Some(DefaultParams), None, None))
  {
    assert IsIdent(DefaultAlgorithm) by {
      forall i | 0 <= i < |DefaultAlgorithm|
        ensures 'a' <= DefaultAlgorithm[i] <= 'z' || '0' <= DefaultAlgorithm[i] <= '9'
      {
      }
    }
    assert DefaultParams[1] == '=';
    assert '$' !in DefaultParams by {
      forall i | 0 <= i < |DefaultParams| ensures DefaultParams[i] != '$' {
      }
    }
  }

  /** `hash_password` with the salt drawn by the caller. */
  function HashPassword(password: string, salt: HashSalt): (r: Result<string>)
    ensures r.Ok? && ParsePhc(r.value) == Some(DefaultHash(password, salt))
  {
    var p := DefaultHash(password, salt);
    DefaultSettingWellFormed();
    WithOutput(Phc(DefaultAlgorithm, Some(DefaultVersion), Some(DefaultParams), None, None), salt, p.hash.value);
    ParseRender(p);
    Ok(Render(p))
  }

  /**
   * `verify_password`: a malformed hash string is a `Crypto` error; a well-formed one gives
   * whether Argon2, run with the hash's own settings, reproduces it.
   */
  function VerifyPassword(password: string, hash: string): (r: Result<bool>)
    ensures r.Err? <==> ParsePhc(hash).None?
    ensures r.Err? ==> r.error == Crypto(InvalidHashMessage)
    ensures r.Ok? ==> (r.value <==> Reproduces(password, ParsePhc(hash).value))
  {
    match ParsePhc(hash)
    case None => Err(Crypto(InvalidHashMessage))
    case Some(p) => Ok(Reproduces(password, p))
  }

  /** A password verifies against its own hash. */
  lemma VerifyHashedPassword(password: string, salt: HashSalt)
    ensures VerifyPassword(password, HashPassword(password, salt).value) == Ok(true)
  {
    Base64.DecodeEncodeNoPad(salt);
  }

  /** A different password is reported as `Ok(false)`, not as an error. */
  lemma VerifyWrongPassword(password: string, other: string, salt: HashSalt)
    requires other != password
    ensures VerifyPassword(other, HashPassword(password, salt).value) == Ok(false)
  {
    Base64.DecodeEncodeNoPad(salt);
    var setting := Utf8.Encode(Setting(DefaultAlgorithm, Some(DefaultVersion), Some(DefaultParams))) + salt;
    var d, d' := Digest(DefaultAlgorithm, Some(DefaultVersion), Some(DefaultParams), salt, password),
                 Digest(DefaultAlgorithm, Some(DefaultVersion), Some(DefaultParams), salt, other);
    if d == d' {
      assert d == setting + Utf8.Encode(password) && d' == setting + Utf8.Encode(other);
      assert Utf8.Encode(other) == d'[|setting|..] == d[|setting|..] == Utf8.Encode(password);
      Utf8.EncodeInjective(other, password);
    }
  }

  /**
   * A hash written with any Argon2 variant, version and parameters verifies its password:
   * the settings come from the hash, not from `Argon2::default()`.
   */
  lemma VerifyOwnSettings(password: string, algorithm: string, version: Option<string>,
                          params: Option<string>, salt: Bytes)
    requires algorithm in Argon2Algorithms && |salt| > 0
    requires WellFormed(Phc(algorithm, version, params, None, None))
    ensures var p := Phc(algorithm, version, params, Some(Base64.EncodeNoPad(salt)),
                         Some(Digest(algorithm, version, params, salt, password)));
            VerifyPassword(password, Render(p)) == Ok(true)
  {
    var p := Phc(algorithm, version, params, Some(Base64.EncodeNoPad(salt)),
                 Some(Digest(algorithm, version, params, salt, password)));
    WithOutput(Phc(algorithm, version, params, None, None), salt, p.hash.value);
    ParseRender(p);
    ReproducesOwn(password, p, salt);
  }

  lemma ReproducesOwn(password: string, p: Phc, salt: Bytes)
    requires p.algorithm in Argon2Algorithms && p.salt == Some(Base64.EncodeNoPad(salt))
    requires p.hash == Some(Digest(p.algorithm, p.version, p.params, salt, password))
    ensures Reproduces(password, p)
  {
    Base64.DecodeEncodeNoPad(salt);
  }

  /** A well-formed hash of another scheme gives `Ok(false)`, not an error. */
  lemma VerifyOtherScheme(password: string)
    ensures VerifyPassword(password, "$x") == Ok(false)
  {
    assert Fields("x") == ["x"];
    assert IsIdent("x");
  }

  /** A string that does not start with `$` is rejected as malformed. */
  lemma VerifyMalformedHash(password: string, hash: string)
    requires |hash| == 0 || hash[0] != '$'
    ensures VerifyPassword(password, hash) == Err(Crypto(InvalidHashMessage))
  {
  }

  // ---------------------------------------------------------------------------
  // Tokens
  // ---------------------------------------------------------------------------

  /** `generate_token`: the random bytes as 64 lower-case hex digits. */
  function GenerateToken(seed: TokenSeed): (r: Result<string>)
    ensures r.Ok? && |r.value| == 64
    ensures forall i :: 0 <= i < |r.value| ==> Hex.IsHexDigit(r.value[i])
    ensures Hex.Decode(r.value) == Some(seed)
  {
    Hex.EncodeShape(seed);
    Hex.DecodeEncode(seed);
    Ok(Hex.Encode(seed))
  }

  // ---------------------------------------------------------------------------
  // The zeroizing key holder
  // ---------------------------------------------------------------------------

  /**
   * `SecureKey`: the key's `Vec<u8>`, as its backing buffer and its length. Dropping it
   * zeroes the whole buffer and empties the vector.
   */
  class SecureKey {
    var buffer: array<byte>
    var len: nat

    ghost predicate Valid()
      reads this
    {
      len <= buffer.Length
    }

    /** The bytes the key currently holds. */
    function AsSlice(): (r: Bytes)
      reads this, buffer
      requires Valid()
      ensures |r| == len
      ensures forall i :: 0 <= i < len ==> r[i] == buffer[i]
    {
      buffer[..len]
    }

    /** `SecureKey::new`: takes the given bytes as they are. */
    constructor(key: Bytes)
      ensures Valid() && fresh(buffer)
      ensures AsSlice() == key
    {
      buffer := new byte[|key|](i requires 0 <= i < |key| => key[i]);
      len := |key|;
    }

    /** `drop`: every byte of the buffer is overwritten with zero and the vector emptied. */
    method Drop()
      requires Valid()
      modifies this, buffer
      ensures Valid() && buffer == old(buffer) && buffer.Length == old(buffer.Length)
      ensures AllZero(buffer[..])
      ensures len == 0 && AsSlice() == []
    {
      var i := 0;
      while i < buffer.Length
        invariant 0 <= i <= buffer.Length
        invariant forall j :: 0 <= j < i ==> buffer[j] == 0
        modifies buffer
      {
        buffer[i] := 0;
        i := i + 1;
      }
      len := 0;
    }
  }
}
